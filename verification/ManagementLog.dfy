/**
 The retained runtime log of src/management-log.c: log output arrives in arbitrary chunks, is
 assembled into lines in a fixed buffer, and the lines kept go to a ring of fifty entries.
 */
module ManagementLog {
  import opened CBytes

  const NL: byte := 10
  const CR: byte := 13
  const SPACE: byte := 32
  const COLON: byte := 58
  const DOT: byte := 46

  const PENDING_SIZE := 256
  const MESSAGE_SIZE := 192
  const CAPACITY := 50
  const WINDOW := 6

  /** "performing session handshake" */
  const HANDSHAKE: seq<byte> :=
    [112, 101, 114, 102, 111, 114, 109, 105, 110, 103, 32, 115, 101, 115, 115, 105, 111, 110, 32,
     104, 97, 110, 100, 115, 104, 97, 107, 101]

  const ELLIPSIS: seq<byte> := [DOT, DOT, DOT]

  // ---------------------------------------------------------------- one line

  /** The letters E, W, I, D and V. */
  predicate IsLevel(b: byte) {
    b == 69 || b == 87 || b == 73 || b == 68 || b == 86
  }

  function LevelOf(line: seq<byte>): (level: byte)
    ensures IsLevel(level)
  {
    if |line| > 1 && line[1] == SPACE && IsLevel(line[0]) then line[0] else 73
  }

  function MessageOf(line: seq<byte>): (message: seq<byte>) {
    var colon := IndexOf(line, COLON);
    if colon + 1 < |line| && line[colon + 1] == SPACE then line[colon + 2..]
    else if |line| > 1 && line[1] == SPACE then line[2..]
    else line
  }

  /** The usual line of the logging library: level, time, tag, message. */
  lemma {:induction false} UsualLine(level: byte, head: seq<byte>, message: seq<byte>)
    requires IsLevel(level) && COLON !in head
    ensures var line := [level, SPACE] + head + [COLON, SPACE] + message;
            LevelOf(line) == level && MessageOf(line) == message
  {
    var line := [level, SPACE] + head + [COLON, SPACE] + message;
    var n := 2 + |head|;
    assert line[..n] == [level, SPACE] + head && line[n + 2..] == message;
    IndexOfIs(line, COLON, n);
  }

  /** A line without a tag keeps its level letter, if it has one, and is all message behind it; any other is all message. */
  lemma {:induction false} OtherLine(line: seq<byte>)
    requires COLON !in line
    ensures |line| > 1 && line[1] == SPACE ==> MessageOf(line) == line[2..]
    ensures |line| > 1 && line[1] == SPACE && IsLevel(line[0]) ==> LevelOf(line) == line[0]
    ensures |line| < 2 || line[1] != SPACE ==> MessageOf(line) == line && LevelOf(line) == 73
  {
    IndexOfAbsent(line, COLON);
  }

  datatype Note = Note(level: byte, message: seq<byte>)

  /** The first 191 bytes. */
  function Truncated(message: seq<byte>): (r: seq<byte>)
    ensures r <= message && |r| == if |message| < 191 then |message| else 191
  {
    if |message| < MESSAGE_SIZE then message else message[..MESSAGE_SIZE - 1]
  }

  /** What storing a message keeps: nothing of an empty one or of the routine handshake line. */
  function Stored(level: byte, message: seq<byte>): (notes: seq<Note>)
    ensures |notes| <= 1
  {
    if message == [] || message == HANDSHAKE then [] else [Note(level, Truncated(message))]
  }

  /** What a finished line leaves behind. */
  function NotesOf(line: seq<byte>): (notes: seq<Note>) {
    if line == [] then [] else Stored(LevelOf(line), MessageOf(line))
  }

  /** E for errors and worse, W for warnings, I for notices, D for the rest. */
  function SyslogLevel(priority: int): (level: byte)
    ensures level == 69 <==> priority < 4
    ensures level == 87 <==> priority == 4
    ensures level == 73 <==> priority == 5
    ensures level == 68 <==> priority > 5
  {
    if priority <= 3 then 69 else if priority == 4 then 87 else if priority <= 5 then 73 else 68
  }

  /** "NUT: " and as much of the message as an entry has room for. */
  function SyslogLine(message: seq<byte>): (line: seq<byte>)
    ensures |line| == 5 + (if |message| < 186 then |message| else 186)
    ensures line[..5] == [78, 85, 84, 58, 32] && line[5..] <= message
  {
    var room := MESSAGE_SIZE - 6;
    [78, 85, 84, COLON, SPACE] + if |message| <= room then message else message[..room]
  }

  // ---------------------------------------------------------------- the assembler, byte by byte

  function Put(pending: seq<byte>, b: byte): (r: seq<byte>)
    requires |pending| < PENDING_SIZE
    ensures |r| < PENDING_SIZE
  {
    if |pending| < PENDING_SIZE - 1 then pending + [b] else pending[..PENDING_SIZE - 4] + ELLIPSIS
  }

  datatype Fed = Fed(pending: seq<byte>, notes: seq<Note>)

  function Feed(pending: seq<byte>, text: seq<byte>): (r: Fed)
    requires |pending| < PENDING_SIZE
    ensures |r.pending| < PENDING_SIZE
    decreases text
  {
    if text == [] then Fed(pending, [])
    else if text[0] == NL then
      var r := Feed([], text[1..]);
      Fed(r.pending, NotesOf(pending) + r.notes)
    else if text[0] == CR then Feed(pending, text[1..])
    else Feed(Put(pending, text[0]), text[1..])
  }

  lemma {:induction false} FeedAppend(pending: seq<byte>, a: seq<byte>, b: seq<byte>)
    requires |pending| < PENDING_SIZE
    ensures var first := Feed(pending, a);
            var second := Feed(first.pending, b);
            Feed(pending, a + b) == Fed(second.pending, first.notes + second.notes)
    decreases a
  {
    hide NotesOf, Put;
    if a == [] {
      assert a + b == b;
    } else {
      assert (a + b)[1..] == a[1..] + b;
      if a[0] == NL {
        FeedAppend([], a[1..], b);
      } else if a[0] == CR {
        FeedAppend(pending, a[1..], b);
      } else {
        FeedAppend(Put(pending, a[0]), a[1..], b);
      }
    }
  }

  function FeedAll(pending: seq<byte>, chunks: seq<seq<byte>>): (r: Fed)
    requires |pending| < PENDING_SIZE
    ensures |r.pending| < PENDING_SIZE
    decreases chunks
  {
    if chunks == [] then Fed(pending, [])
    else
      var first := Feed(pending, chunks[0]);
      var rest := FeedAll(first.pending, chunks[1..]);
      Fed(rest.pending, first.notes + rest.notes)
  }

  /** Where the output is cut into chunks makes no difference. */
  lemma {:induction false} ChunksDoNotMatter(pending: seq<byte>, chunks: seq<seq<byte>>)
    requires |pending| < PENDING_SIZE
    ensures FeedAll(pending, chunks) == Feed(pending, Flatten(chunks))
    decreases chunks
  {
    hide Feed;
    if chunks == [] {
      assert Feed(pending, []) == Fed(pending, []) by {
        FeedNothing(pending);
      }
    } else {
      FeedAppend(pending, chunks[0], Flatten(chunks[1..]));
      ChunksDoNotMatter(Feed(pending, chunks[0]).pending, chunks[1..]);
    }
  }

  lemma {:induction false} FeedNothing(pending: seq<byte>)
    requires |pending| < PENDING_SIZE
    ensures Feed(pending, []) == Fed(pending, [])
  {
  }

  // ---------------------------------------------------------------- the same, line by line

  /** The lines that a newline ends. */
  function Lines(text: seq<byte>): (lines: seq<seq<byte>>)
    ensures forall i :: 0 <= i < |lines| ==> NL !in lines[i]
    decreases text
  {
    var i := IndexOf(text, NL);
    if i == |text| then [] else [text[..i]] + Lines(text[i + 1..])
  }

  /** What follows the last newline. */
  function Rest(text: seq<byte>): (r: seq<byte>)
    ensures NL !in r
    decreases text
  {
    var i := IndexOf(text, NL);
    if i == |text| then
      assert text[..i] == text;
      text
    else Rest(text[i + 1..])
  }

  function WithoutCr(line: seq<byte>): (r: seq<byte>) {
    if line == [] then []
    else WithoutCr(line[..|line| - 1]) + if line[|line| - 1] == CR then [] else [line[|line| - 1]]
  }

  /** A line as the buffer holds it: up to 255 bytes whole, a longer one as 252 bytes and three dots. */
  function Trimmed(line: seq<byte>): (r: seq<byte>)
    ensures |r| < PENDING_SIZE
  {
    var s := WithoutCr(line);
    if |s| < PENDING_SIZE then s else s[..PENDING_SIZE - 4] + ELLIPSIS
  }

  function NotesOfLines(lines: seq<seq<byte>>): (notes: seq<Note>) {
    if lines == [] then [] else NotesOf(Trimmed(lines[0])) + NotesOfLines(lines[1..])
  }

  lemma {:induction false} TrimmedSnoc(line: seq<byte>, b: byte)
    ensures Trimmed(line + [b]) == if b == CR then Trimmed(line) else Put(Trimmed(line), b)
  {
    assert (line + [b])[..|line|] == line;
    var s := WithoutCr(line);
    assert WithoutCr(line + [b]) == if b == CR then s else s + [b];
    if |s| >= PENDING_SIZE && b != CR {
      assert (s + [b])[..PENDING_SIZE - 4] == s[..PENDING_SIZE - 4];
    }
  }

  lemma {:induction false} FirstLine(line: seq<byte>, text: seq<byte>)
    requires NL !in line
    ensures Lines(line + [NL] + text) == [line] + Lines(text)
    ensures Rest(line + [NL] + text) == Rest(text)
  {
    var s := line + [NL] + text;
    assert s[..|line|] == line && s[|line| + 1..] == text;
    IndexOfIs(s, NL, |line|);
  }

  lemma {:induction false} FeedFromLine(line: seq<byte>, text: seq<byte>)
    requires NL !in line
    ensures Feed(Trimmed(line), text) == Fed(Trimmed(Rest(line + text)), NotesOfLines(Lines(line + text)))
    decreases text
  {
    hide Trimmed, NotesOf, Put, Lines, Rest, IndexOf, WithoutCr;
    if text == [] {
      assert line + text == line;
      NoNewline(line);
    } else if text[0] == NL {
      assert line + text == line + [NL] + text[1..];
      FirstLine(line, text[1..]);
      FeedFromLine([], text[1..]);
      assert [] + text[1..] == text[1..];
      TrimmedEmpty();
      assert ([line] + Lines(text[1..]))[1..] == Lines(text[1..]);
    } else {
      assert line + text == line + [text[0]] + text[1..];
      TrimmedSnoc(line, text[0]);
      FeedFromLine(line + [text[0]], text[1..]);
    }
  }

  lemma {:induction false} NoNewline(line: seq<byte>)
    requires NL !in line
    ensures Lines(line) == [] && Rest(line) == line
  {
    IndexOfAbsent(line, NL);
  }

  lemma {:induction false} TrimmedEmpty()
    ensures Trimmed([]) == []
  {
  }

  /**
   Whatever the chunks, what is kept is what their concatenation says: each line ended by a
   newline, without carriage returns and cut at 255 bytes, leaves its note, in order; the part
   behind the last newline stays in the buffer.
   */
  lemma {:induction false} CaptureIsLineByLine(chunks: seq<seq<byte>>)
    ensures FeedAll([], chunks) ==
            Fed(Trimmed(Rest(Flatten(chunks))), NotesOfLines(Lines(Flatten(chunks))))
  {
    hide Feed, FeedAll, Trimmed, Lines, Rest, NotesOfLines, Flatten;
    ChunksDoNotMatter([], chunks);
    TrimmedEmpty();
    FeedFromLine([], Flatten(chunks));
    assert [] + Flatten(chunks) == Flatten(chunks);
  }

  /** A line of the logging library: level letter, time and tag, message. */
  datatype Logged = Logged(level: byte, head: seq<byte>, message: seq<byte>)

  predicate LoggedOk(l: Logged) {
    && IsLevel(l.level) && COLON !in l.head && |l.head| + |l.message| <= 251
    && NL !in l.head && CR !in l.head && NL !in l.message && CR !in l.message
  }

  function LineOf(l: Logged): (line: seq<byte>) {
    [l.level, SPACE] + l.head + [COLON, SPACE] + l.message
  }

  function TextOf(ls: seq<Logged>): (text: seq<byte>) {
    if ls == [] then [] else LineOf(ls[0]) + [NL] + TextOf(ls[1..])
  }

  /** Every line but empty ones and the handshake line, each cut at 191 bytes. */
  function Kept(ls: seq<Logged>): (notes: seq<Note>) {
    if ls == [] then []
    else
      var m := ls[0].message;
      (if m == [] || m == HANDSHAKE then [] else [Note(ls[0].level, if |m| <= 191 then m else m[..191])]) + Kept(ls[1..])
  }

  lemma {:induction false} NoCr(line: seq<byte>)
    requires CR !in line
    ensures WithoutCr(line) == line
    decreases line
  {
    if line != [] {
      var n := |line| - 1;
      assert line == line[..n] + [line[n]];
      NoCr(line[..n]);
    }
  }

  lemma {:induction false} OneKept(l: Logged)
    requires LoggedOk(l)
    ensures NL !in LineOf(l) && NotesOf(Trimmed(LineOf(l))) == Kept([l])
  {
    hide LevelOf, MessageOf, WithoutCr;
    UsualLine(l.level, l.head, l.message);
    NoCr(LineOf(l));
    assert Kept([l]) == Stored(l.level, l.message) by {
      assert [l][1..] == [];
    }
  }

  lemma {:induction false} AllKept(ls: seq<Logged>)
    requires forall i :: 0 <= i < |ls| ==> LoggedOk(ls[i])
    ensures NotesOfLines(Lines(TextOf(ls))) == Kept(ls) && Rest(TextOf(ls)) == []
    decreases ls
  {
    hide LoggedOk, LineOf, Trimmed, NotesOf, Lines, Rest;
    if ls == [] {
      NoNewline([]);
    } else {
      OneKept(ls[0]);
      AllKept(ls[1..]);
      FirstLine(LineOf(ls[0]), TextOf(ls[1..]));
      assert ([LineOf(ls[0])] + Lines(TextOf(ls[1..])))[1..] == Lines(TextOf(ls[1..]));
      assert [ls[0]][1..] == [];
    }
  }

  /** However the library's output is cut into chunks, exactly these notes are kept, in order. */
  lemma {:induction false} LibraryLinesKept(ls: seq<Logged>, chunks: seq<seq<byte>>)
    requires Flatten(chunks) == TextOf(ls) && forall i :: 0 <= i < |ls| ==> LoggedOk(ls[i])
    ensures FeedAll([], chunks) == Fed([], Kept(ls))
  {
    hide FeedAll, Trimmed, Lines, Rest, NotesOfLines, Kept, TextOf, Flatten;
    CaptureIsLineByLine(chunks);
    AllKept(ls);
    TrimmedEmpty();
  }

  // ---------------------------------------------------------------- the ring

  datatype Stamp = Stamp(uptime: nat, epoch: int)

  datatype Entry = Entry(stamp: Stamp, note: Note)

  function Stamped(notes: seq<Note>, stamp: Stamp): (entries: seq<Entry>)
    ensures |entries| == |notes|
    ensures forall i :: 0 <= i < |notes| ==> entries[i] == Entry(stamp, notes[i])
  {
    seq(|notes|, i requires 0 <= i < |notes| => Entry(stamp, notes[i]))
  }

  function Last(history: seq<Entry>, n: nat): (r: seq<Entry>) {
    if |history| <= n then history else history[|history| - n..]
  }

  /** The ring holds the latest entries of the history, each in the slot its number selects. */
  predicate Holds(ring: seq<Entry>, next: nat, count: nat, history: seq<Entry>) {
    && |ring| == CAPACITY && next == |history| % CAPACITY
    && count == (if |history| < CAPACITY then |history| else CAPACITY)
    && forall k :: |history| - count <= k < |history| ==> ring[k % CAPACITY] == history[k]
  }

  lemma {:induction false} DifferentSlots(j: nat, k: nat)
    requires j < k < j + CAPACITY
    ensures j % CAPACITY != k % CAPACITY
  {
  }

  lemma {:induction false} HoldsStore(ring: seq<Entry>, next: nat, count: nat, history: seq<Entry>, e: Entry)
    requires Holds(ring, next, count, history)
    ensures next < CAPACITY
    ensures Holds(ring[next := e], (next + 1) % CAPACITY, if count < CAPACITY then count + 1 else count, history + [e])
  {
    var n := |history|;
    var count' := if count < CAPACITY then count + 1 else count;
    forall k | n + 1 - count' <= k < n + 1
      ensures ring[next := e][k % CAPACITY] == (history + [e])[k]
    {
      if k < n {
        DifferentSlots(k, n);
      }
    }
  }

  lemma {:induction false} SlotNumber(n: nat, take: nat, index: nat)
    requires take <= n && take <= CAPACITY && index < take
    ensures ((n % CAPACITY + CAPACITY - take) % CAPACITY + index) % CAPACITY == (n - take + index) % CAPACITY
  {
  }

  lemma {:induction false} SlotHolds(ring: seq<Entry>, next: nat, count: nat, history: seq<Entry>, k: nat)
    requires Holds(ring, next, count, history) && |history| - count <= k < |history|
    ensures |ring| == CAPACITY && next == |history| % CAPACITY && ring[k % CAPACITY] == history[k]
  {
  }

  lemma {:induction false} CountBound(ring: seq<Entry>, next: nat, count: nat, history: seq<Entry>)
    requires Holds(ring, next, count, history)
    ensures count <= CAPACITY && count <= |history| && next < CAPACITY && |ring| == CAPACITY
  {
  }

  /** Reading the ring from a computed start returns the latest entries, oldest first. */
  lemma {:induction false} HoldsRead(ring: seq<Entry>, next: nat, count: nat, history: seq<Entry>, take: nat, index: nat)
    requires Holds(ring, next, count, history) && take <= count && index < take
    ensures |ring| == CAPACITY
    ensures ring[((next + CAPACITY - take) % CAPACITY + index) % CAPACITY] == Last(history, take)[index]
  {
    hide Holds;
    CountBound(ring, next, count, history);
    var k := |history| - take + index;
    SlotHolds(ring, next, count, history, k);
    SlotNumber(|history|, take, index);
    assert Last(history, take)[index] == history[k];
  }

  class Log {
    const pending: array<byte>
    var pendingLength: nat
    const entries: array<Entry>
    var next: nat
    var count: nat

    /** Everything ever stored. */
    ghost var history: seq<Entry>

    ghost predicate Valid()
      reads this, pending, entries
    {
      && pending.Length == PENDING_SIZE && pendingLength < PENDING_SIZE && pending[pendingLength] == 0
      && entries.Length == CAPACITY
      && Holds(entries[..], next, count, history)
    }

    ghost function Pending(): (r: seq<byte>)
      requires Valid()
      reads this, pending, entries
    {
      pending[..pendingLength]
    }

    constructor (blank: Entry)
      ensures Valid() && Pending() == [] && history == []
      ensures fresh(pending) && fresh(entries)
    {
      pending := new byte[PENDING_SIZE](_ => 0);
      entries := new Entry[CAPACITY](_ => blank);
      pendingLength, next, count := 0, 0, 0;
      history := [];
    }

    method Store(level: byte, message: seq<byte>, stamp: Stamp)
      requires Valid()
      modifies this, entries
      ensures Valid() && pendingLength == old(pendingLength)
      ensures history == old(history) + Stamped(Stored(level, message), stamp)
    {
      if message == [] || message == HANDSHAKE {
        assert history == history + Stamped([], stamp);
        return;
      }
      ghost var ring := entries[..];
      var e := Entry(stamp, Note(level, Truncated(message)));
      HoldsStore(ring, next, count, history, e);
      entries[next] := e;
      assert entries[..] == ring[next := e];
      next := (next + 1) % CAPACITY;
      if count < CAPACITY {
        count := count + 1;
      }
      history := history + [e];
      assert Stamped(Stored(level, message), stamp) == [e];
    }

    method CommitPending(stamp: Stamp)
      requires Valid()
      modifies this, pending, entries
      ensures Valid() && Pending() == []
      ensures history == old(history) + Stamped(NotesOf(old(Pending())), stamp)
    {
      if pendingLength == 0 {
        assert history == history + Stamped([], stamp);
        return;
      }
      var line := pending[..pendingLength];
      pending[pendingLength] := 0;
      Store(LevelOf(line), MessageOf(line), stamp);
      pendingLength := 0;
      pending[0] := 0;
    }

    method PutByte(b: byte)
      requires Valid()
      modifies this`pendingLength, pending
      ensures Valid() && Pending() == Put(old(Pending()), b) && pending[pendingLength] == 0
    {
      if pendingLength < PENDING_SIZE - 1 {
        pending[pendingLength] := b;
        pendingLength := pendingLength + 1;
        pending[pendingLength] := 0;
      } else {
        pending[PENDING_SIZE - 4] := DOT;
        pending[PENDING_SIZE - 3] := DOT;
        pending[PENDING_SIZE - 2] := DOT;
      }
    }

    /** The entries one chunk adds carry the time it was captured. */
    method CaptureChunk(chunk: seq<byte>, stamp: Stamp)
      requires Valid()
      modifies this, pending, entries
      ensures Valid()
      ensures Pending() == Feed(old(Pending()), chunk).pending
      ensures history == old(history) + Stamped(Feed(old(Pending()), chunk).notes, stamp)
    {
      hide Feed, NotesOf, Put, Holds;
      ghost var start, before := Pending(), history;
      FeedNothing(start);
      assert history == before + Stamped([], stamp);
      for cursor := 0 to |chunk|
        invariant Valid()
        invariant Pending() == Feed(start, chunk[..cursor]).pending
        invariant history == before + Stamped(Feed(start, chunk[..cursor]).notes, stamp)
      {
        ghost var done := Feed(start, chunk[..cursor]);
        assert chunk[..cursor + 1] == chunk[..cursor] + [chunk[cursor]];
        FeedAppend(start, chunk[..cursor], [chunk[cursor]]);
        FeedOne(done.pending, chunk[cursor]);
        if chunk[cursor] == NL {
          CommitPending(stamp);
          StampedAppend(done.notes, NotesOf(done.pending), stamp);
        } else if chunk[cursor] != CR {
          PutByte(chunk[cursor]);
          assert done.notes + [] == done.notes;
        } else {
          assert done.notes + [] == done.notes;
        }
      }
      assert chunk[..|chunk|] == chunk;
    }

    /** The NUT daemon's messages bypass the line buffer. */
    method CaptureSyslog(priority: int, message: seq<byte>, stamp: Stamp)
      requires Valid()
      modifies this, entries
      ensures Valid() && Pending() == old(Pending())
      ensures history == old(history) + [Entry(stamp, Note(SyslogLevel(priority), SyslogLine(message)))]
    {
      var line := SyslogLine(message);
      Store(SyslogLevel(priority), line, stamp);
      assert line[0] == line[..5][0];
      assert line != HANDSHAKE;
      assert Stamped(Stored(SyslogLevel(priority), line), stamp) ==
             [Entry(stamp, Note(SyslogLevel(priority), line))];
    }

    /** Copies the latest `take` entries, oldest first. */
    method CopyLast(take: nat, copy: array<Entry>)
      requires Valid() && take <= count && take <= copy.Length && copy != entries
      modifies copy
      ensures Valid() && copy[..take] == Last(history, take)
    {
      hide Holds;
      var first := (next + CAPACITY - take) % CAPACITY;
      ghost var ring := entries[..];
      CountBound(ring, next, count, history);
      for index := 0 to take
        invariant entries[..] == ring
        invariant forall i :: 0 <= i < index ==> copy[i] == Last(history, take)[i]
      {
        HoldsRead(ring, next, count, history, take, index);
        copy[index] := entries[(first + index) % CAPACITY];
      }
    }

    /** The whole log, for a buffer large enough for it. */
    method CopySnapshot(copy: array<Entry>, stamp: Stamp) returns (ok: bool, copied: nat)
      requires Valid() && copy != entries
      modifies this, pending, entries, copy
      ensures Valid() && (ok <==> copy.Length >= 50)
      ensures !ok ==> history == old(history) && Pending() == old(Pending()) && copied == 0
      ensures ok ==> history == old(history) + Stamped(NotesOf(old(Pending())), stamp) && Pending() == []
      ensures ok ==> copied <= copy.Length && copy[..copied] == Last(history, 50)
    {
      if copy.Length < CAPACITY {
        return false, 0;
      }
      CommitPending(stamp);
      copied := count;
      CopyLast(copied, copy);
      ok := true;
    }

    /** What the status page shows. */
    method StatusSnapshot(stamp: Stamp, blank: Entry) returns (shown: seq<Entry>)
      requires Valid()
      modifies this, pending, entries
      ensures Valid() && Pending() == []
      ensures history == old(history) + Stamped(NotesOf(old(Pending())), stamp)
      ensures shown == Last(history, 6)
    {
      CommitPending(stamp);
      var copy := new Entry[WINDOW](_ => blank);
      var n := if count < WINDOW then count else WINDOW;
      CopyLast(n, copy);
      shown := copy[..n];
    }
  }

  lemma {:induction false} FeedOne(pending: seq<byte>, b: byte)
    requires |pending| < PENDING_SIZE
    ensures Feed(pending, [b]) ==
            if b == NL then Fed([], NotesOf(pending))
            else if b == CR then Fed(pending, [])
            else Fed(Put(pending, b), [])
  {
    assert [b][1..] == [];
    assert NotesOf(pending) + [] == NotesOf(pending);
  }

  lemma {:induction false} StampedAppend(a: seq<Note>, b: seq<Note>, stamp: Stamp)
    ensures Stamped(a + b, stamp) == Stamped(a, stamp) + Stamped(b, stamp)
  {
  }
}
