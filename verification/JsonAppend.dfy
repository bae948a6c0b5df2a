/**
 Building JSON in a fixed buffer (src/management-http.c): formatted appends that remember an
 overflow, and strings escaped so that a reader following section 7 of RFC 8259 gets the
 original bytes back.
 */
module JsonAppend {
  import opened CBytes

  const QUOTE: byte := 34
  const BACKSLASH: byte := 92

  // ---------------------------------------------------------------- escaping

  /** What one byte of a string becomes. */
  function Escape(b: byte): (r: seq<byte>)
    ensures 0 < |r| <= 6 && (b != 0 ==> 0 !in r)
  {
    if b == BACKSLASH then [BACKSLASH, BACKSLASH]
    else if b == QUOTE then [BACKSLASH, QUOTE]
    else if b == 8 then [BACKSLASH, 98]
    else if b == 12 then [BACKSLASH, 102]
    else if b == 10 then [BACKSLASH, 110]
    else if b == 13 then [BACKSLASH, 114]
    else if b == 9 then [BACKSLASH, 116]
    else if b < 0x20 then [BACKSLASH, 117, 48, 48, HexDigit(b / 16), HexDigit(b % 16)]
    else [b]
  }

  function EscapeAll(value: seq<byte>): (r: seq<byte>) {
    if value == [] then [] else EscapeAll(value[..|value| - 1]) + Escape(value[|value| - 1])
  }

  function Escaped(value: seq<byte>): (r: seq<byte>) {
    [QUOTE] + EscapeAll(value) + [QUOTE]
  }

  // ---------------------------------------------------------------- reading, by RFC 8259

  /** The value of four hexadecimal digits. */
  function CodeUnit(s: seq<byte>): (r: Option<nat>)
    ensures r.Some? ==> |s| >= 4 && r.value < 0x10000
  {
    if |s| < 4 || HexValue(s[0]) < 0 || HexValue(s[1]) < 0 || HexValue(s[2]) < 0 || HexValue(s[3]) < 0 then None
    else Some(4096 * HexValue(s[0]) + 256 * HexValue(s[1]) + 16 * HexValue(s[2]) + HexValue(s[3]))
  }

  function Utf8(code: nat): (r: seq<byte>)
    requires code < 0x110000
  {
    if code < 0x80 then [code]
    else if code < 0x800 then [0xC0 + code / 64, 0x80 + code % 64]
    else if code < 0x10000 then [0xE0 + code / 4096, 0x80 + code / 64 % 64, 0x80 + code % 64]
    else [0xF0 + code / 262144, 0x80 + code / 4096 % 64, 0x80 + code / 64 % 64, 0x80 + code % 64]
  }

  /** The bytes an escape stands for and how many characters it has behind the backslash. */
  function Escapee(s: seq<byte>): (r: Option<(seq<byte>, nat)>)
    ensures r.Some? ==> 0 < r.value.1 <= |s|
  {
    if s == [] then None
    else if s[0] == QUOTE || s[0] == BACKSLASH || s[0] == 47 then Some(([s[0]], 1))
    else if s[0] == 98 then Some(([8], 1))
    else if s[0] == 102 then Some(([12], 1))
    else if s[0] == 110 then Some(([10], 1))
    else if s[0] == 114 then Some(([13], 1))
    else if s[0] == 116 then Some(([9], 1))
    else if s[0] != 117 then None
    else UnicodeEscapee(s)
  }

  function UnicodeEscapee(s: seq<byte>): (r: Option<(seq<byte>, nat)>)
    requires s != []
    ensures r.Some? ==> 0 < r.value.1 <= |s|
  {
    var unit := CodeUnit(s[1..]);
    if unit.None? then None
    else if unit.value < 0xD800 || unit.value >= 0xE000 then Some((Utf8(unit.value), 5))
    else if unit.value >= 0xDC00 || |s| < 11 || s[5] != BACKSLASH || s[6] != 117 then None
    else
      var low := CodeUnit(s[7..]);
      if low.None? || low.value < 0xDC00 || low.value >= 0xE000 then None
      else Some((Utf8(0x10000 + 1024 * (unit.value - 0xD800) + (low.value - 0xDC00)), 11))
  }

  datatype Parsed = Parsed(value: seq<byte>, rest: seq<byte>)

  /** Reads characters up to the closing quotation mark. */
  function Chars(s: seq<byte>): (r: Option<Parsed>)
    decreases |s|
  {
    if s == [] || s[0] < 0x20 then None
    else if s[0] == QUOTE then Some(Parsed([], s[1..]))
    else if s[0] != BACKSLASH then Prefixed([s[0]], Chars(s[1..]))
    else
      var e := Escapee(s[1..]);
      if e.None? then None else Prefixed(e.value.0, Chars(s[1 + e.value.1..]))
  }

  function Prefixed(a: seq<byte>, r: Option<Parsed>): (o: Option<Parsed>) {
    match r
    case None => None
    case Some(p) => Some(Parsed(a + p.value, p.rest))
  }

  /** A JSON string at the start of the text. */
  function ParseString(s: seq<byte>): (r: Option<Parsed>) {
    if s == [] || s[0] != QUOTE then None else Chars(s[1..])
  }

  lemma {:induction false} UnicodeEscape(b: byte, rest: seq<byte>)
    requires b < 0x20
    ensures Escapee([117, 48, 48, HexDigit(b / 16), HexDigit(b % 16)] + rest) == Some(([b], 5))
  {
    var s := [117, 48, 48, HexDigit(b / 16), HexDigit(b % 16)] + rest;
    assert s[1..] == [48, 48, HexDigit(b / 16), HexDigit(b % 16)] + rest;
    assert CodeUnit(s[1..]) == Some(b as nat);
  }

  lemma {:induction false} CharsEscape(b: byte, rest: seq<byte>)
    ensures Chars(Escape(b) + rest) == Prefixed([b], Chars(rest))
  {
    hide UnicodeEscapee, HexDigit;
    var e := Escape(b);
    var s := e + rest;
    if |e| == 1 {
      assert s[1..] == rest;
    } else if |e| == 2 {
      assert s[1..] == [e[1]] + rest && s[2..] == rest;
    } else {
      UnicodeEscape(b, rest);
      assert s[1..] == [117, 48, 48, HexDigit(b / 16), HexDigit(b % 16)] + rest;
      assert s[6..] == rest;
    }
  }

  lemma {:induction false} PrefixedTwice(a: seq<byte>, b: seq<byte>, r: Option<Parsed>)
    ensures Prefixed(a, Prefixed(b, r)) == Prefixed(a + b, r)
  {
    if r.Some? {
      assert a + (b + r.value.value) == a + b + r.value.value;
    }
  }

  lemma {:induction false} CharsEscapeAll(value: seq<byte>, rest: seq<byte>)
    ensures Chars(EscapeAll(value) + rest) == Prefixed(value, Chars(rest))
    decreases |value|
  {
    hide Chars, Escape;
    if value == [] {
      assert EscapeAll(value) + rest == rest;
      assert Chars(rest).Some? ==> [] + Chars(rest).value.value == Chars(rest).value.value;
    } else {
      var n := |value| - 1;
      CharsEscapeAll(value[..n], Escape(value[n]) + rest);
      CharsEscape(value[n], rest);
      assert EscapeAll(value) + rest == EscapeAll(value[..n]) + (Escape(value[n]) + rest);
      PrefixedTwice(value[..n], [value[n]], Chars(rest));
      assert value == value[..n] + [value[n]];
    }
  }

  /** Whatever follows, reading an escaped string gives back every byte and stops behind the closing mark. */
  lemma {:induction false} StringRoundTrip(value: seq<byte>, rest: seq<byte>)
    ensures ParseString(Escaped(value) + rest) == Some(Parsed(value, rest))
  {
    hide Escape;
    var s := Escaped(value) + rest;
    assert s[1..] == EscapeAll(value) + ([QUOTE] + rest);
    CharsEscapeAll(value, [QUOTE] + rest);
    assert ([QUOTE] + rest)[1..] == rest;
    assert value + [] == value;
  }

  // ---------------------------------------------------------------- appending

  /** Where an append leaves the fill mark: at the size once something did not fit. */
  function Mark(size: nat, used: nat, length: nat): (r: nat) {
    if used >= size then used else if length >= size - used then size else used + length
  }

  predicate Fits(size: nat, used: nat, length: nat) {
    used < size && length < size - used
  }

  /** The mark after a chain of appends that goes on whatever happens. */
  function MarkAll(size: nat, used: nat, texts: seq<seq<byte>>): (r: nat)
    decreases texts
  {
    if texts == [] then used else MarkAll(size, Mark(size, used, |texts[0]|), texts[1..])
  }

  /** Every append of the chain succeeds. */
  predicate AllFit(size: nat, used: nat, texts: seq<seq<byte>>)
    decreases texts
  {
    texts == [] || (Fits(size, used, |texts[0]|) && AllFit(size, used + |texts[0]|, texts[1..]))
  }

  /** Once one append has overflowed, none succeeds again. */
  lemma {:induction false} OverflowSticks(size: nat, used: nat, texts: seq<seq<byte>>)
    requires used >= size
    ensures MarkAll(size, used, texts) == used
    ensures texts != [] ==> !AllFit(size, used, texts)
    decreases texts
  {
    if texts != [] {
      OverflowSticks(size, used, texts[1..]);
    }
  }

  /** A chain succeeds exactly when its concatenation would fit as one append. */
  lemma {:induction false} ChainFitsIff(size: nat, used: nat, texts: seq<seq<byte>>)
    requires used < size
    ensures AllFit(size, used, texts) <==> Fits(size, used, |Flatten(texts)|)
    ensures AllFit(size, used, texts) ==> MarkAll(size, used, texts) == used + |Flatten(texts)|
    ensures !AllFit(size, used, texts) ==> MarkAll(size, used, texts) == size
    decreases texts
  {
    if texts != [] {
      var used' := Mark(size, used, |texts[0]|);
      if used' < size {
        ChainFitsIff(size, used', texts[1..]);
      } else {
        OverflowSticks(size, used', texts[1..]);
      }
    }
  }

  class JsonBuffer {
    const destination: array<byte>
    var used: nat

    ghost predicate Valid()
      reads this
    {
      used <= destination.Length
    }

    ghost function Text(): (r: seq<byte>)
      requires Valid()
      reads this, destination
    {
      destination[..used]
    }

    constructor (size: nat)
      ensures Valid() && fresh(destination) && destination.Length == size && used == 0
    {
      destination := new byte[size](_ => 0);
      used := 0;
    }

    /** text is what the format and its arguments expand to. */
    method Append(text: seq<byte>) returns (ok: bool)
      requires Valid()
      modifies this, destination
      ensures Valid() && used == Mark(destination.Length, old(used), |text|)
      ensures ok <==> Fits(destination.Length, old(used), |text|)
      ensures ok ==> Text() == old(Text()) + text && destination[used] == 0
    {
      if used >= destination.Length {
        return false;
      }
      var room := destination.Length - used;
      var n := if |text| < room then |text| else room - 1;
      ghost var before := destination[..used];
      ghost var start := used;
      for i := 0 to n
        invariant used == start && destination.Length == start + room
        invariant destination[..used + i] == before + text[..i]
      {
        destination[used + i] := text[i];
        assert text[..i + 1] == text[..i] + [text[i]];
        assert destination[..used + i + 1] == destination[..used + i] + [text[i]];
      }
      destination[used + n] := 0;
      if |text| >= room {
        used := destination.Length;
        return false;
      }
      assert text[..n] == text;
      used := used + |text|;
      ok := true;
    }

    /** A chain of appends, given up at the first that fails. */
    method AppendAll(texts: seq<seq<byte>>) returns (ok: bool)
      requires Valid()
      modifies this, destination
      ensures Valid() && used == MarkAll(destination.Length, old(used), texts)
      ensures ok <==> AllFit(destination.Length, old(used), texts)
      ensures ok ==> Text() == old(Text()) + Flatten(texts)
      ensures ok && texts != [] ==> used < destination.Length && destination[used] == 0
    {
      ghost var start, before := used, Text();
      assert texts[0..] == texts && texts[..0] == [] && before + [] == before;
      for i := 0 to |texts|
        invariant Valid() && Text() == before + Flatten(texts[..i])
        invariant AllFit(destination.Length, start, texts) <==> AllFit(destination.Length, used, texts[i..])
        invariant MarkAll(destination.Length, start, texts) == MarkAll(destination.Length, used, texts[i..])
        invariant i > 0 ==> used < destination.Length && destination[used] == 0
      {
        assert texts[i..][1..] == texts[i + 1..];
        ok := Append(texts[i]);
        if !ok {
          OverflowSticks(destination.Length, used, texts[i + 1..]);
          return;
        }
        assert texts[..i + 1] == texts[..i] + [texts[i]];
        FlattenSnoc(texts[..i], texts[i]);
        Grouped(before, Flatten(texts[..i]), texts[i]);
      }
      assert texts[..|texts|] == texts;
      ok := true;
    }

    /** A missing value is written as the empty string. */
    method AppendString(value: Option<seq<byte>>) returns (ok: bool)
      requires Valid()
      modifies this, destination
      ensures Valid()
      ensures var escaped := Escaped(if value.Some? then value.value else []);
              && (ok <==> Fits(destination.Length, old(used), |escaped|))
              && (ok ==> Text() == old(Text()) + escaped && destination[used] == 0)
              && used == Mark(destination.Length, old(used), |escaped|)
    {
      hide Escape, EscapeAll;
      EscapeAllPrefix([], 0);
      var bytes := if value.Some? then value.value else [];
      ghost var start, before := used, Text();
      ok := Append([QUOTE]);
      if !ok {
        return;
      }
      for cursor := 0 to |bytes|
        invariant Valid() && used < destination.Length
        invariant used == start + 1 + |EscapeAll(bytes[..cursor])|
        invariant Text() == before + ([QUOTE] + EscapeAll(bytes[..cursor]))
      {
        EscapeAllSnoc(bytes, cursor);
        EscapeAllPrefix(bytes, cursor + 1);
        ghost var done := [QUOTE] + EscapeAll(bytes[..cursor]);
        ok := Append(Escape(bytes[cursor]));
        if !ok {
          return;
        }
        Grouped(before, done, Escape(bytes[cursor]));
        Grouped([QUOTE], EscapeAll(bytes[..cursor]), Escape(bytes[cursor]));
      }
      assert bytes[..|bytes|] == bytes;
      ok := Append([QUOTE]);
      Grouped(before, [QUOTE] + EscapeAll(bytes), [QUOTE]);
    }
  }

  lemma {:induction false} EscapeAllPrefix(value: seq<byte>, n: nat)
    requires n <= |value|
    ensures |EscapeAll(value[..n])| <= |EscapeAll(value)|
    ensures EscapeAll([]) == []
    decreases |value|
  {
    hide Escape;
    if n == |value| {
      assert value[..n] == value;
    } else {
      assert value[..|value| - 1][..n] == value[..n];
      EscapeAllPrefix(value[..|value| - 1], n);
    }
  }

  lemma {:induction false} EscapeAllSnoc(value: seq<byte>, n: nat)
    requires n < |value|
    ensures EscapeAll(value[..n + 1]) == EscapeAll(value[..n]) + Escape(value[n])
  {
    assert value[..n + 1][..n] == value[..n];
  }
}
