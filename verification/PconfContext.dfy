/**
 The parser context of src/common/parseconf.c with its reused, growing buffers. Every method
 is proved against the pure machine of ParseConf through View().
 */
module PconfContext {
  import opened CBytes
  import opened ParseConf

  /** realloc: a larger block that starts with the old contents. */
  method Realloc(block: array<byte>, size: nat) returns (moved: array<byte>)
    requires block.Length <= size
    ensures fresh(moved) && moved.Length == size
    ensures moved[..block.Length] == block[..]
  {
    moved := new byte[size](_ => 0);
    for i := 0 to block.Length
      invariant moved[..i] == block[..i]
    {
      moved[i] := block[i];
    }
  }

  /** memset to NUL, then strncpy of the first n characters of source. */
  method CopyWord(dest: array<byte>, source: array<byte>, n: nat)
    requires n < dest.Length && n <= source.Length && dest != source
    modifies dest
    ensures dest[..n] == source[..n]
    ensures forall i :: n <= i < dest.Length ==> dest[i] == 0
  {
    for i := 0 to dest.Length
      invariant forall j :: 0 <= j < i ==> dest[j] == 0
    {
      dest[i] := 0;
    }
    for i := 0 to n
      invariant forall j :: n <= j < dest.Length ==> dest[j] == 0
      invariant dest[..i] == source[..i]
    {
      dest[i] := source[i];
    }
  }

  class Context {
    var state: State
    var ch: int
    var arglist: seq<array<byte>>   // argument buffers; only the first numargs are in use
    var argsize: seq<nat>
    var numargs: nat
    var maxargs: nat
    var wordbuf: array<byte>
    var wordptr: nat                // offset of the terminator in wordbuf
    var error: bool
    var linenum: nat
    var argLimit: nat
    var wordlenLimit: nat
    var file: seq<byte>             // what fgetc has not read yet
    ghost var words: seq<seq<byte>> // the C strings in the buffers in use

    /** Buffers hold their terminators, sizes are recorded truly, and no two words share storage. */
    ghost predicate Valid()
      reads this, wordbuf, arglist
    {
      && WordValid()
      && ArgsValid()
      && numargs == |words| <= maxargs
      && (forall i :: 0 <= i < numargs ==> Holds(arglist[i], words[i]))
    }

    ghost predicate ArgsValid()
      reads this
    {
      && |arglist| == |argsize| == maxargs
      && (forall i :: 0 <= i < maxargs ==> arglist[i].Length == argsize[i] && arglist[i] != wordbuf)
      && (forall i, j :: 0 <= i < j < maxargs ==> arglist[i] != arglist[j])
    }

    ghost predicate WordValid()
      reads this, wordbuf
    {
      wordptr < wordbuf.Length && wordbuf[wordptr] == 0 && NulFree(wordbuf[..wordptr])
    }

    /** Read as a C string, the buffer is the word. */
    static ghost predicate Holds(buffer: array<byte>, word: seq<byte>)
      reads buffer
    {
      Terminated(buffer[..]) && CStr(buffer[..]) == word
    }

    function Limits(): (l: Limits)
      reads this
    {
      ParseConf.Limits(argLimit, wordlenLimit)
    }

    ghost function View(): (p: Parse)
      requires Valid()
      reads this, wordbuf, arglist
    {
      Parse(state, words, wordbuf[..wordptr])
    }

    /** Buffers in use now are either the old ones or new memory. */
    twostate predicate FreshGrowth()
      reads this
    {
      && (wordbuf == old(wordbuf) || fresh(wordbuf))
      && forall i :: 0 <= i < |arglist| ==> arglist[i] in old(arglist) || fresh(arglist[i])
    }

    constructor (file: seq<byte>)
      ensures Valid() && fresh(wordbuf) && arglist == []
      ensures View() == FRESH && !error && Limits() == DEFAULTS && this.file == file
    {
      state, ch, arglist, argsize, numargs, maxargs := FindWordStart, 0, [], [], 0, 0;
      wordbuf, wordptr := new byte[16](_ => 0), 0;
      error, linenum, argLimit, wordlenLimit := false, 0, 32, 512;
      this.file := file;
      words := [];
    }

    /** The length strlen finds in wordbuf is the offset of wordptr. */
    method WordLength() returns (n: nat)
      requires WordValid()
      ensures n == wordptr
    {
      n := 0;
      while n < wordbuf.Length && wordbuf[n] != 0
        invariant n <= wordptr
      {
        n := n + 1;
      }
      assert forall i :: 0 <= i < wordptr ==> wordbuf[..wordptr][i] == wordbuf[i];
    }

    method AddChar()
      requires Valid()
      modifies this`wordbuf, this`wordptr, wordbuf
      ensures Valid() && FreshGrowth()
      ensures View() == ParseConf.AddChar(Limits(), old(View()), ch)
    {
      var wbuflen := WordLength();
      if ch < 0x20 || ch > 0x7f {
        return;
      }
      if wordlenLimit != 0 && wbuflen >= wordlenLimit {
        return;
      }
      ghost var before := wordbuf[..wordptr];
      if wbuflen >= wordbuf.Length - 1 {
        var moved := Realloc(wordbuf, wordbuf.Length + 8);
        assert moved[..wbuflen] == before;
        wordbuf, wordptr := moved, wbuflen;
      }
      StoreChar();
    }

    method StoreChar()
      requires wordptr + 1 < wordbuf.Length && NulFree(wordbuf[..wordptr]) && Printable(ch)
      modifies this`wordptr, wordbuf
      ensures WordValid() && wordptr == old(wordptr) + 1
      ensures wordbuf[..wordptr] == old(wordbuf[..wordptr]) + [ch]
    {
      wordbuf[wordptr] := ch;
      wordptr := wordptr + 1;
      wordbuf[wordptr] := 0;
    }

    /** One more argument than ever before: both lists grow by an empty slot. */
    method GrowLists()
      requires ArgsValid()
      modifies this`arglist, this`argsize, this`maxargs
      ensures ArgsValid() && maxargs == old(maxargs) + 1
      ensures arglist[..old(maxargs)] == old(arglist) && fresh(arglist[old(maxargs)])
    {
      var empty := new byte[0];
      maxargs := maxargs + 1;
      arglist, argsize := arglist + [empty], argsize + [0];
    }

    /** The string storage of one slot is made large enough for n characters and a terminator. */
    method GrowSlot(argpos: nat, n: nat)
      requires ArgsValid() && argpos < maxargs
      modifies this`arglist, this`argsize
      ensures ArgsValid() && argpos < maxargs && n < arglist[argpos].Length
      ensures arglist[argpos] == old(arglist[argpos]) || fresh(arglist[argpos])
      ensures arglist == old(arglist)[argpos := arglist[argpos]]
    {
      if n >= argsize[argpos] {
        var newlen := n + 1;
        var moved := Realloc(arglist[argpos], newlen);
        arglist, argsize := arglist[argpos := moved], argsize[argpos := newlen];
      }
    }

    /** The slot for the next argument, at least n characters and a terminator wide. */
    method PrepareSlot(n: nat) returns (argpos: nat)
      requires ArgsValid() && numargs <= maxargs
      modifies this`arglist, this`argsize, this`numargs, this`maxargs
      ensures ArgsValid() && FreshGrowth()
      ensures argpos == old(numargs) && numargs == argpos + 1 <= maxargs
      ensures n < arglist[argpos].Length
      ensures arglist[argpos] in old(arglist) || fresh(arglist[argpos])
      ensures arglist[..argpos] == old(arglist[..argpos])
    {
      argpos := numargs;
      numargs := numargs + 1;
      if numargs > maxargs {
        GrowLists();
      }
      GrowSlot(argpos, n);
    }

    method AddArgWord()
      requires Valid()
      modifies this`arglist, this`argsize, this`numargs, this`maxargs, this`words, arglist
      ensures Valid() && FreshGrowth()
      ensures words == old(words) + [wordbuf[..wordptr]]
    {
      var wbuflen := WordLength();
      var argpos := PrepareSlot(wbuflen);
      assert forall i :: 0 <= i < argpos ==> arglist[i] == old(arglist)[i] by {
        assert forall i :: 0 <= i < argpos ==> arglist[i] == arglist[..argpos][i];
      }
      CopyWord(arglist[argpos], wordbuf, wbuflen);
      words := words + [wordbuf[..wordptr]];
      assert Holds(arglist[argpos], wordbuf[..wordptr]) by {
        StrLenIs(arglist[argpos][..], wbuflen);
      }
    }

    /** A word beyond arg_limit is dropped; either way the word buffer is emptied. */
    method EndOfWord()
      requires Valid()
      modifies this`arglist, this`argsize, this`numargs, this`maxargs, this`words, this`wordptr
      modifies wordbuf, arglist
      ensures Valid() && FreshGrowth()
      ensures View() == ParseConf.EndOfWord(Limits(), old(View()))
    {
      if argLimit != 0 && numargs >= argLimit {
        wordptr := 0;
        wordbuf[0] := 0;
        return;
      }
      AddArgWord();
      wordptr := 0;
      wordbuf[0] := 0;
    }

    method FindWordStartChar() returns (next: State)
      requires Valid()
      modifies this`arglist, this`argsize, this`numargs, this`maxargs, this`words
      modifies this`wordptr, this`wordbuf, wordbuf, arglist
      ensures Valid() && FreshGrowth()
      ensures View().(state := next) == StepFindWordStart(Limits(), old(View()), ch)
    {
      if ch == 10 {
        return EndOfLine;
      }
      if ch == 35 {
        return FindEol;
      }
      if IsSpace(ch) {
        return FindWordStart;
      }
      if ch == 92 {
        return CollectLiteral;
      }
      if ch == 34 {
        return QuoteCollect;
      }
      AddChar();
      if ch == 61 {
        EndOfWord();
        return FindWordStart;
      }
      return Collect;
    }

    method QuoteCollectChar() returns (next: State)
      requires Valid()
      modifies this`arglist, this`argsize, this`numargs, this`maxargs, this`words
      modifies this`wordptr, this`wordbuf, this`error, wordbuf, arglist
      ensures Valid() && FreshGrowth()
      ensures View().(state := next) == StepQuoteCollect(Limits(), old(View()), ch)
      ensures error == (old(error) || next.ParseErr?)
    {
      if ch == 35 {
        error := true;
        EndOfWord();
        return ParseErr;
      }
      if ch == 34 {
        EndOfWord();
        return FindWordStart;
      }
      if ch == 92 {
        return QcLiteral;
      }
      AddChar();
      return QuoteCollect;
    }

    method CollectChar() returns (next: State)
      requires Valid()
      modifies this`arglist, this`argsize, this`numargs, this`maxargs, this`words
      modifies this`wordptr, this`wordbuf, wordbuf, arglist
      ensures Valid() && FreshGrowth()
      ensures View().(state := next) == StepCollect(Limits(), old(View()), ch)
    {
      if ch == 35 {
        EndOfWord();
        return FindEol;
      }
      if ch == 10 {
        EndOfWord();
        return EndOfLine;
      }
      if IsSpace(ch) {
        EndOfWord();
        return FindWordStart;
      }
      if ch == 61 {
        EndOfWord();
        var _ := FindWordStartChar();
        return FindWordStart;
      }
      if ch == 92 {
        return CollectLiteral;
      }
      AddChar();
      return Collect;
    }

    /** qc_literal and collectliteral: anything but a newline is taken blindly. */
    method LiteralChar()
      requires Valid()
      modifies this`wordptr, this`wordbuf, wordbuf
      ensures Valid() && FreshGrowth()
      ensures View() == if ch == 10 then old(View()) else ParseConf.AddChar(Limits(), old(View()), ch)
    {
      if ch != 10 {
        AddChar();
      }
    }

    method NextState() returns (next: State)
      requires Valid()
      modifies this`arglist, this`argsize, this`numargs, this`maxargs, this`words
      modifies this`wordptr, this`wordbuf, this`error, wordbuf, arglist
      ensures Valid() && FreshGrowth()
      ensures View().(state := next) == Step(Limits(), old(View()), ch)
      ensures error == (old(error) || (next.ParseErr? && !state.ParseErr?))
    {
      match state
      case FindWordStart => next := FindWordStartChar();
      case FindEol => next := if ch == 10 then EndOfLine else FindEol;
      case QuoteCollect => next := QuoteCollectChar();
      case QcLiteral => LiteralChar(); next := QuoteCollect;
      case Collect => next := CollectChar();
      case CollectLiteral => LiteralChar(); next := Collect;
      case EndOfLine => next := state;
      case ParseErr => next := state;
    }

    method ParseChar()
      requires Valid()
      modifies this`arglist, this`argsize, this`numargs, this`maxargs, this`words
      modifies this`wordptr, this`wordbuf, this`error, this`state, wordbuf, arglist
      ensures Valid() && FreshGrowth()
      ensures View() == Step(Limits(), old(View()), ch)
      ensures error == (old(error) || (state.ParseErr? && !old(state).ParseErr?))
    {
      state := NextState();
    }

    /** Both line readers start over this way; the word buffer is left as it is. */
    method BeginLine()
      requires Valid()
      modifies this`numargs, this`words, this`state
      ensures Valid() && View() == Begin(old(View()))
    {
      numargs, words := 0, [];
      state := FindWordStart;
    }

    /** One character, sign-extended or not, through the machine. */
    method Feed(c: byte, charIsSigned: bool)
      requires Valid() && !Done(View())
      modifies this`arglist, this`argsize, this`numargs, this`maxargs, this`words, this`wordptr
      modifies this`wordbuf, this`error, this`state, this`ch, wordbuf, arglist
      ensures Valid() && FreshGrowth()
      ensures View() == Step(Limits(), old(View()), c)
      ensures error == (old(error) || state.ParseErr?)
      ensures forall tail :: Run(Limits(), old(View()), [c] + tail) ==
                             if Done(View()) then (View(), tail) else Run(Limits(), View(), tail)
    {
      ghost var before := View();
      ch := CharValue(charIsSigned, c);
      StepIgnoresSign(Limits(), before, c, charIsSigned);
      ParseChar();
      forall tail: seq<byte>
        ensures Run(Limits(), before, [c] + tail) ==
                if Done(View()) then (View(), tail) else Run(Limits(), View(), tail)
      {
        RunFirst(Limits(), before, c, tail);
      }
    }

    /** The character loop of pconf_line. */
    method FeedLine(line: seq<byte>, charIsSigned: bool)
      requires Valid() && !Done(View())
      modifies this`arglist, this`argsize, this`numargs, this`maxargs, this`words, this`wordptr
      modifies this`wordbuf, this`error, this`state, this`ch, wordbuf, arglist
      ensures Valid() && FreshGrowth()
      ensures View() == Run(Limits(), old(View()), line).0
      ensures error == (old(error) || state.ParseErr?)
    {
      hide Step;
      var i := 0;
      while i < |line|
        invariant i <= |line| && Valid() && FreshGrowth()
        invariant Run(Limits(), old(View()), line) == Run(Limits(), View(), line[i..])
        invariant !Done(View()) && error == old(error)
      {
        assert line[i..] == [line[i]] + line[i + 1..];
        Feed(line[i], charIsSigned);
        i := i + 1;
        if state.ParseErr? || state.EndOfLine? {
          return;
        }
      }
    }

    /** pconf_line: feed a string, stop at the end of its logical line, tie off a leftover word. */
    method PconfLine(line: seq<byte>, charIsSigned: bool)
      requires Valid() && NulFree(line)
      modifies this`arglist, this`argsize, this`numargs, this`maxargs, this`words, this`wordptr
      modifies this`wordbuf, this`error, this`state, this`linenum, this`ch, wordbuf, arglist
      ensures Valid() && FreshGrowth()
      ensures View() == Line(Limits(), old(View()), line)
      ensures error == (old(error) || state.ParseErr?)
    {
      hide Run;
      linenum := linenum + 1;
      BeginLine();
      FeedLine(line, charIsSigned);
      if !(state.ParseErr? || state.EndOfLine?) && wordptr != 0 {
        EndOfWord();
      }
    }

    /** The fgetc loop of pconf_file_next. */
    method FeedFile()
      requires Valid() && !Done(View())
      modifies this`arglist, this`argsize, this`numargs, this`maxargs, this`words, this`wordptr
      modifies this`wordbuf, this`error, this`state, this`ch, this`file, wordbuf, arglist
      ensures Valid() && FreshGrowth()
      ensures (View(), file) == Run(Limits(), old(View()), old(file))
      ensures error == (old(error) || state.ParseErr?)
    {
      hide Step, Run;
      while file != []
        invariant Valid() && FreshGrowth()
        invariant Run(Limits(), old(View()), old(file)) == Run(Limits(), View(), file)
        invariant !Done(View()) && error == old(error)
        decreases file
      {
        var c := file[0];
        assert file == [c] + file[1..];
        file := file[1..];
        Feed(c, false);
        if state.ParseErr? || state.EndOfLine? {
          return;
        }
      }
      RunNothing(Limits(), View());
      ch := -1;
    }

    /** pconf_file_next: true when a line is ready. */
    method PconfFileNext() returns (more: bool)
      requires Valid()
      modifies this`arglist, this`argsize, this`numargs, this`maxargs, this`words, this`wordptr
      modifies this`wordbuf, this`error, this`state, this`linenum, this`ch, this`file, wordbuf, arglist
      ensures Valid() && FreshGrowth()
      ensures Next(View(), file, more) == FileNext(Limits(), old(View()), old(file))
      ensures error == (old(error) || state.ParseErr?)
    {
      hide Run;
      linenum := linenum + 1;
      BeginLine();
      FeedFile();
      if state.ParseErr? || state.EndOfLine? {
        return true;
      }
      if numargs != 0 {
        if wordptr != 0 {
          EndOfWord();
        }
        return true;
      }
      return false;
    }

    /** pconf_char: 1 for a finished line, -1 for a parse error, 0 for more to come. */
    method PconfChar(c: byte, charIsSigned: bool) returns (result: int)
      requires Valid()
      modifies this`arglist, this`argsize, this`numargs, this`maxargs, this`words, this`wordptr
      modifies this`wordbuf, this`error, this`state, this`ch, wordbuf, arglist
      ensures Valid() && FreshGrowth()
      ensures View() == CharStep(Limits(), old(View()), c)
      ensures result == if state.EndOfLine? then 1 else if state.ParseErr? then -1 else 0
      ensures error == (old(error) || state.ParseErr?)
    {
      if state.EndOfLine? || state.ParseErr? {
        BeginLine();
      }
      Feed(c, charIsSigned);
      result := if state.EndOfLine? then 1 else if state.ParseErr? then -1 else 0;
    }

    /** Writes a terminator over the last character of the first argument, in place. */
    method ChopFirstArgument()
      requires Valid() && words != [] && words[0] != []
      modifies this`words, arglist
      ensures Valid() && words == old(words)[0 := old(words[0])[..|old(words[0])| - 1]]
    {
      var a := arglist[0];
      ghost var n := |words[0]|;
      assert a[..n] == words[0] && a[..][..n] == a[..n];
      var last := ArgumentLength(0);
      a[last - 1] := 0;
      words := words[0 := words[0][..n - 1]];
      assert a[..][..n - 1] == words[0] && NulFree(words[0]);
      StrLenIs(a[..], n - 1);
    }

    /** strlen of an argument. */
    method ArgumentLength(i: nat) returns (n: nat)
      requires Valid() && i < numargs
      ensures n == |words[i]|
    {
      var a := arglist[i];
      assert a[..][..|words[i]|] == words[i] && NulFree(words[i]);
      n := 0;
      while n < a.Length && a[n] != 0
        invariant n <= |words[i]| <= a.Length
      {
        n := n + 1;
      }
      assert forall k :: 0 <= k < |words[i]| ==> words[i][k] == a[k];
    }

    /** The argument as a C string. */
    method Argument(i: nat) returns (s: seq<byte>)
      requires Valid() && i < numargs
      ensures s == words[i]
    {
      var n := ArgumentLength(i);
      s := arglist[i][..n];
    }

    /** pconf_parse_error: reports an error once. */
    method PconfParseError() returns (reported: bool)
      modifies this`error
      ensures reported == old(error) && !error
    {
      reported := error;
      error := false;
    }
  }
}
