/**
 URL-encoded forms: the management decoder and field lookup of src/management-http.c, the
 stricter decoder of the setup portal in src/wifi-provisioning-web.c, and the serialiser of
 section 5.2 of the WHATWG URL Standard that browsers use.
 */
module FormCodec {
  import opened CBytes

  const PERCENT: byte := 37
  const AMPERSAND: byte := 38
  const PLUS: byte := 43
  const MINUS: byte := 45
  const EQUALS: byte := 61
  const SPACE: byte := 32

  const NAME_SIZE := 40
  const BODY_LIMIT := 640

  // ---------------------------------------------------------------- hexadecimal

  predicate IsHex(c: byte) {
    HexValue(c) >= 0
  }

  function AfterSpaces(s: seq<byte>): (r: seq<byte>) {
    if s != [] && IsSpace(s[0]) then AfterSpaces(s[1..]) else s
  }

  /** The value of the hexadecimal digits at the start, behind those already read. */
  function Digits(s: seq<byte>, value: nat): (r: nat) {
    if s == [] || !IsHex(s[0]) then value else Digits(s[1..], 16 * value + HexValue(s[0]))
  }

  /** strtol in base 16: blanks, a sign, a prefix 0x if a digit follows, then digits while they last. */
  function Strtol16(s: seq<byte>): (r: int) {
    var t := AfterSpaces(s);
    var signed := t != [] && (t[0] == PLUS || t[0] == MINUS);
    var u := if signed then t[1..] else t;
    var v := if |u| > 2 && u[0] == 48 && Lower(u[1]) == 120 && IsHex(u[2]) then u[2..] else u;
    var n: int := Digits(v, 0);
    if signed && t[0] == MINUS then -n else n
  }

  /** What the management decoder makes of the two characters of an escape: strtol, cut to a byte. */
  function Strtol2(a: byte, b: byte): (v: byte)
    ensures IsHex(a) && IsHex(b) ==> v == 16 * HexValue(a) + HexValue(b)
    ensures IsHex(a) && !IsHex(b) ==> v == HexValue(a)
    ensures !IsHex(a) && IsHex(b) ==>
              v == if IsSpace(a) || a == PLUS then HexValue(b) else if a == MINUS then (256 - HexValue(b)) % 256 else 0
    ensures !IsHex(a) && !IsHex(b) ==> v == 0
  {
    Strtol2Cases(a, b);
    Strtol16([a, b]) % 256
  }

  lemma {:induction false} Strtol2Cases(a: byte, b: byte)
    ensures var v := Strtol16([a, b]);
            && (IsHex(a) && IsHex(b) ==> v == 16 * HexValue(a) + HexValue(b))
            && (IsHex(a) && !IsHex(b) ==> v == HexValue(a))
            && (!IsHex(a) && IsHex(b) ==>
                  v == if IsSpace(a) || a == PLUS then HexValue(b) else if a == MINUS then -HexValue(b) else 0)
            && (!IsHex(a) && !IsHex(b) ==> v == 0)
  {
    assert [a, b][1..] == [b] && [b][1..] == [];
    var nothing: seq<byte> := [];
    assert AfterSpaces(nothing) == [] && Digits(nothing, 0) == 0;
    assert Digits([b], 0) == if IsHex(b) then HexValue(b) else 0;
    assert AfterSpaces([b]) == if IsSpace(b) then [] else [b];
    if IsSpace(a) {
      assert AfterSpaces([a, b]) == AfterSpaces([b]);
    } else {
      assert AfterSpaces([a, b]) == [a, b];
      if IsHex(a) {
        assert Digits([a, b], 0) == Digits([b], HexValue(a));
        assert Digits([b], HexValue(a)) == if IsHex(b) then 16 * HexValue(a) + HexValue(b) else HexValue(a);
      } else {
        assert Digits([a, b], 0) == 0;
      }
    }
  }

  // ---------------------------------------------------------------- the two decoders

  function Plain(c: byte): (r: byte) {
    if c == PLUS then SPACE else c
  }

  /** An escape starts here: a percent sign with two more characters behind it. */
  predicate AtEscape(s: seq<byte>) {
    |s| >= 3 && s[0] == PERCENT
  }

  function Decoded(s: seq<byte>): (r: seq<byte>)
    decreases |s|
  {
    if s == [] then []
    else if AtEscape(s) then [Strtol2(s[1], s[2])] + Decoded(s[3..])
    else [Plain(s[0])] + Decoded(s[1..])
  }

  /** The portal refuses an escape without two hexadecimal digits. */
  function PortalDecoded(s: seq<byte>): (r: Option<seq<byte>>)
    decreases |s|
  {
    if s == [] then Some([])
    else if AtEscape(s) then
      if IsHex(s[1]) && IsHex(s[2])
      then Prefixed([(16 * HexValue(s[1]) + HexValue(s[2])) as byte], PortalDecoded(s[3..]))
      else None
    else Prefixed([Plain(s[0])], PortalDecoded(s[1..]))
  }

  function Prefixed(a: seq<byte>, r: Option<seq<byte>>): (o: Option<seq<byte>>) {
    match r
    case None => None
    case Some(b) => Some(a + b)
  }

  /** Every percent sign with room for an escape behind it starts a proper one. */
  predicate WellFormed(s: seq<byte>) {
    forall i :: 0 <= i < |s| - 2 && s[i] == PERCENT ==> IsHex(s[i + 1]) && IsHex(s[i + 2])
  }

  lemma {:induction false} WellFormedTail(s: seq<byte>)
    requires s != []
    ensures AtEscape(s) ==> (WellFormed(s) <==> IsHex(s[1]) && IsHex(s[2]) && WellFormed(s[3..]))
    ensures !AtEscape(s) ==> (WellFormed(s) <==> WellFormed(s[1..]))
  {
    if AtEscape(s) {
      var t := s[3..];
      assert forall i :: 0 <= i < |t| ==> t[i] == s[i + 3];
      if IsHex(s[1]) && IsHex(s[2]) && WellFormed(t) {
        forall i | 0 <= i < |s| - 2 && s[i] == PERCENT
          ensures IsHex(s[i + 1]) && IsHex(s[i + 2])
        {
          if i >= 3 {
            assert t[i - 3] == PERCENT;
          }
        }
      }
      if WellFormed(s) {
        assert s[0] == PERCENT;
        assert WellFormed(t);
      }
    } else {
      var t := s[1..];
      assert forall i :: 0 <= i < |t| ==> t[i] == s[i + 1];
      if WellFormed(t) {
        forall i | 0 <= i < |s| - 2 && s[i] == PERCENT
          ensures IsHex(s[i + 1]) && IsHex(s[i + 2])
        {
          assert t[i - 1] == PERCENT;
        }
      }
    }
  }

  /** The portal decodes exactly the well-formed inputs, to what the management decoder yields. */
  lemma {:induction false} DecodersAgree(s: seq<byte>)
    ensures PortalDecoded(s) == if WellFormed(s) then Some(Decoded(s)) else None
    decreases |s|
  {
    hide WellFormed, HexValue, Strtol2;
    if s == [] {
      assert WellFormed(s) by {
        EmptyWellFormed();
      }
    } else {
      WellFormedTail(s);
      if AtEscape(s) {
        EscapeValue(s[1], s[2]);
        DecodersAgree(s[3..]);
      } else {
        DecodersAgree(s[1..]);
      }
    }
  }

  lemma {:induction false} EmptyWellFormed()
    ensures WellFormed([])
  {
  }

  lemma {:induction false} EscapeValue(a: byte, b: byte)
    ensures IsHex(a) && IsHex(b) ==> Strtol2(a, b) == 16 * HexValue(a) + HexValue(b)
  {
  }

  lemma {:induction false} DecodedFrom(s: seq<byte>, i: nat)
    requires i < |s|
    ensures s[i] == PERCENT && i + 2 < |s| ==>
              Decoded(s[i..]) == [Strtol2(s[i + 1], s[i + 2])] + Decoded(s[i + 3..]) &&
              (WellFormed(s[i..]) <==> IsHex(s[i + 1]) && IsHex(s[i + 2]) && WellFormed(s[i + 3..]))
    ensures !(s[i] == PERCENT && i + 2 < |s|) ==>
              Decoded(s[i..]) == [Plain(s[i])] + Decoded(s[i + 1..]) &&
              (WellFormed(s[i..]) <==> WellFormed(s[i + 1..]))
  {
    hide WellFormed, Strtol2, HexValue;
    var rest := s[i..];
    WellFormedTail(rest);
    assert rest[1..] == s[i + 1..];
    if i + 2 < |s| {
      assert rest[3..] == s[i + 3..];
    }
  }

  /**
   Encoded text piece by piece: a character standing for itself, a plus sign, an escape with
   digits of either case, one with other characters behind it, or a percent sign too near the
   end to be one.
   */
  datatype Part =
    | Char(c: byte)
    | Blank
    | Escape(v: byte, upperHigh: bool, upperLow: bool)
    | Odd(a: byte, b: byte)
    | Lone

  function HexLetter(v: int, upper: bool): (c: byte)
    requires 0 <= v < 16
  {
    if v < 10 then 48 + v else if upper then 55 + v else 87 + v
  }

  function PartText(p: Part): (r: seq<byte>) {
    match p
    case Char(c) => [c]
    case Blank => [43]
    case Escape(v, upperHigh, upperLow) => [37, HexLetter(v / 16, upperHigh), HexLetter(v % 16, upperLow)]
    case Odd(a, b) => [37, a, b]
    case Lone => [37]
  }

  function PartsText(parts: seq<Part>): (r: seq<byte>) {
    if parts == [] then [] else PartText(parts[0]) + PartsText(parts[1..])
  }

  predicate PartsOk(parts: seq<Part>) {
    parts == [] ||
    (&& (parts[0].Char? ==> parts[0].c != 37 && parts[0].c != 43)
     && (parts[0].Lone? ==> |PartsText(parts[1..])| < 2)
     && PartsOk(parts[1..]))
  }

  function PartValue(p: Part): (b: byte) {
    match p
    case Char(c) => c
    case Blank => 32
    case Escape(v, _, _) => v
    case Odd(a, b) => Strtol2(a, b)
    case Lone => 37
  }

  /** Decoding yields one byte per piece. */
  lemma {:induction false} PiecewiseDecoded(parts: seq<Part>)
    requires PartsOk(parts)
    ensures |Decoded(PartsText(parts))| == |parts|
    ensures forall i :: 0 <= i < |parts| ==> Decoded(PartsText(parts))[i] == PartValue(parts[i])
    decreases parts
  {
    hide PartText, PartValue, Decoded;
    if parts == [] {
      DecodedNonEmpty([]);
    } else {
      PartDecoded(parts[0], PartsText(parts[1..]));
      PiecewiseDecoded(parts[1..]);
    }
  }

  lemma {:induction false} PartDecoded(p: Part, rest: seq<byte>)
    requires p.Char? ==> p.c != 37 && p.c != 43
    requires p.Lone? ==> |rest| < 2
    ensures Decoded(PartText(p) + rest) == [PartValue(p)] + Decoded(rest)
  {
    hide Strtol2;
    var s := PartText(p) + rest;
    assert s != [] && s[|PartText(p)|..] == rest;
    if p.Escape? {
      EscapeValue(s[1], s[2]);
      assert 16 * (p.v / 16) + p.v % 16 == p.v;
    }
  }

  /** Decodes into a buffer; a value that does not fit is cut and reported. */
  method DecodeFormComponent(encoded: seq<byte>, destination: array<byte>) returns (ok: bool)
    requires destination.Length > 0
    modifies destination
    ensures ok <==> |Decoded(encoded)| < destination.Length
    ensures var n := if ok then |Decoded(encoded)| else destination.Length - 1;
            destination[..n] == Decoded(encoded)[..n] && destination[n] == 0
  {
    hide Strtol2, Decoded, WellFormed, HexValue;
    var length, index := 0, 0;
    assert encoded[0..] == encoded;
    while index < |encoded| && length + 1 < destination.Length
      invariant index <= |encoded| && length < destination.Length
      invariant Decoded(encoded) == destination[..length] + Decoded(encoded[index..])
    {
      ghost var before, rest := destination[..length], Decoded(encoded[index..]);
      DecodedFrom(encoded, index);
      if encoded[index] == PERCENT && index + 2 < |encoded| {
        destination[length] := Strtol2(encoded[index + 1], encoded[index + 2]);
        index := index + 3;
      } else {
        destination[length] := if encoded[index] == PLUS then SPACE else encoded[index];
        index := index + 1;
      }
      Appended(destination, length, before, rest, Decoded(encoded[index..]));
      length := length + 1;
    }
    DecodedNonEmpty(encoded[index..]);
    assert Decoded(encoded)[..length] == destination[..length];
    destination[length] := 0;
    ok := index == |encoded|;
  }

  lemma {:induction false} Appended(a: array<byte>, length: nat, before: seq<byte>, rest: seq<byte>, rest': seq<byte>)
    requires length < a.Length && a[..length] == before && rest == [a[length]] + rest'
    ensures before + rest == a[..length + 1] + rest'
  {
  }

  lemma {:induction false} DecodedNonEmpty(s: seq<byte>)
    ensures s != [] <==> Decoded(s) != []
  {
  }

  /** Succeeds exactly when the input is well formed and its value fits. */
  method UrlDecode(destination: array<byte>, source: seq<byte>) returns (ok: bool)
    requires destination.Length > 0
    modifies destination
    ensures ok <==> WellFormed(source) && |Decoded(source)| < destination.Length
    ensures ok ==> destination[..|Decoded(source)|] == Decoded(source) && destination[|Decoded(source)|] == 0
  {
    hide WellFormed, HexValue, Strtol2, Decoded;
    var length, index := 0, 0;
    assert source[0..] == source;
    while index < |source|
      invariant index <= |source| && length < destination.Length
      invariant Decoded(source) == destination[..length] + Decoded(source[index..])
      invariant WellFormed(source) <==> WellFormed(source[index..])
    {
      ghost var before, rest := destination[..length], Decoded(source[index..]);
      DecodedNonEmpty(source[index..]);
      if length + 1 >= destination.Length {
        return false;
      }
      DecodedFrom(source, index);
      if source[index] == PLUS {
        destination[length] := SPACE;
        index := index + 1;
      } else if source[index] == PERCENT && index + 2 < |source| {
        var high, low := HexValue(source[index + 1]), HexValue(source[index + 2]);
        if high < 0 || low < 0 {
          return false;
        }
        EscapeValue(source[index + 1], source[index + 2]);
        destination[length] := 16 * high + low;
        index := index + 3;
      } else {
        destination[length] := source[index];
        index := index + 1;
      }
      Appended(destination, length, before, rest, Decoded(source[index..]));
      length := length + 1;
    }
    assert source[index..] == [];
    EmptyWellFormed();
    DecodedNonEmpty([]);
    destination[length] := 0;
    ok := true;
  }

  // ---------------------------------------------------------------- looking a field up

  /** The parts between ampersands, without the empty ones. */
  function Tokens(s: seq<byte>): (tokens: seq<seq<byte>>)
    decreases |s|
  {
    if s == [] then []
    else
      var i := IndexOf(s, AMPERSAND);
      var rest := if i == |s| then [] else Tokens(s[i + 1..]);
      if i == 0 then rest else [s[..i]] + rest
  }

  /** Segments with an ampersand between each and the next. */
  function Joined(segments: seq<seq<byte>>): (s: seq<byte>)
    requires segments != []
  {
    if |segments| == 1 then segments[0] else segments[0] + [38] + Joined(segments[1..])
  }

  function NonEmpty(segments: seq<seq<byte>>): (r: seq<seq<byte>>) {
    if segments == [] then [] else (if segments[0] == [] then [] else [segments[0]]) + NonEmpty(segments[1..])
  }

  /** Splitting undoes joining, up to empty segments. */
  lemma {:induction false} TokensOfJoined(segments: seq<seq<byte>>)
    requires segments != [] && forall i :: 0 <= i < |segments| ==> 38 !in segments[i]
    ensures Tokens(Joined(segments)) == NonEmpty(segments)
    decreases segments
  {
    var first := segments[0];
    if |segments| == 1 {
      IndexOfAbsent(first, AMPERSAND);
      assert first[..|first|] == first && segments[1..] == [];
    } else {
      var rest := Joined(segments[1..]);
      var s := first + [AMPERSAND] + rest;
      assert s[..|first|] == first && s[|first| + 1..] == rest;
      IndexOfIs(s, AMPERSAND, |first|);
      TokensOfJoined(segments[1..]);
    }
  }

  /** This pair has the name: decoded into 40 bytes and compared as a C string. */
  predicate Named(pair: seq<byte>, name: seq<byte>) {
    var i := IndexOf(pair, EQUALS);
    i < |pair| && |Decoded(pair[..i])| < NAME_SIZE && CStr(Decoded(pair[..i])) == name
  }

  /** The encoded value of the first pair with the name. */
  function Lookup(tokens: seq<seq<byte>>, name: seq<byte>): (r: Option<seq<byte>>) {
    if tokens == [] then None
    else if Named(tokens[0], name) then Some(tokens[0][IndexOf(tokens[0], EQUALS) + 1..])
    else Lookup(tokens[1..], name)
  }

  method FindByte(s: seq<byte>, from: nat, b: byte) returns (i: nat)
    requires from <= |s|
    ensures i == from + IndexOf(s[from..], b)
  {
    i := from;
    while i < |s| && s[i] != b
      invariant from <= i <= |s| && b !in s[from..i]
    {
      i := i + 1;
    }
    assert s[from..][..i - from] == s[from..i];
    if i < |s| {
      IndexOfIs(s[from..], b, i - from);
    } else {
      assert s[from..] == s[from..i];
      IndexOfAbsent(s[from..], b);
    }
  }

  /** Does the pair ending the name at `separator` have the expected name? */
  method NameMatches(pair: seq<byte>, separator: nat, expected: seq<byte>) returns (matches: bool)
    requires separator == IndexOf(pair, EQUALS) < |pair|
    ensures matches <==> Named(pair, expected)
  {
    var decoded := new byte[NAME_SIZE](_ => 0);
    var ok := DecodeFormComponent(pair[..separator], decoded);
    ghost var value := Decoded(pair[..separator]);
    if ok {
      CStrOfBuffer(decoded[..], value);
    }
    matches := ok && CStr(decoded[..]) == expected;
  }

  lemma {:induction false} CStrOfBuffer(buffer: seq<byte>, value: seq<byte>)
    requires |value| < |buffer| && buffer[..|value|] == value && buffer[|value|] == 0
    ensures CStr(buffer) == CStr(value)
  {
    var n := StrLen(value);
    assert buffer[..n] == value[..n];
    if n < |value| {
      assert buffer[n] == buffer[..|value|][n];
    }
    StrLenIs(buffer, n);
  }

  /** Writes the value of the first field with the name; without one the buffer is untouched. */
  method ExtractFormValue(body: seq<byte>, expected: seq<byte>, destination: array<byte>) returns (found: bool)
    requires destination.Length > 0
    modifies destination
    ensures var r := Lookup(Tokens(body), expected);
            && (r.None? ==> !found && destination[..] == old(destination[..]))
            && (r.Some? ==> (found <==> |Decoded(r.value)| < destination.Length))
            && (found ==> r.Some? && destination[..|Decoded(r.value)|] == Decoded(r.value) &&
                          destination[|Decoded(r.value)|] == 0)
  {
    hide Named, Decoded, IndexOf, Tokens, Lookup;
    var pos := 0;
    assert body[0..] == body;
    while pos < |body|
      invariant pos <= |body|
      invariant Lookup(Tokens(body), expected) == Lookup(Tokens(body[pos..]), expected)
      invariant destination[..] == old(destination[..])
    {
      var end := FindByte(body, pos, AMPERSAND);
      TokenStep(body, pos, end);
      LookupStep(body, pos, end, expected);
      var pair := body[pos..end];
      if pos < end {
        var separator := FindByte(pair, 0, EQUALS);
        assert pair[0..] == pair;
        if separator < |pair| {
          var matches := NameMatches(pair, separator, expected);
          if matches {
            found := DecodeFormComponent(pair[separator + 1..], destination);
            return;
          }
        } else {
          NoSeparator(pair, expected);
        }
      }
      pos := if end < |body| then end + 1 else end;
    }
    assert body[pos..] == [];
    NothingToFind(expected);
    found := false;
  }

  lemma {:induction false} NothingToFind(name: seq<byte>)
    ensures Lookup(Tokens([]), name) == None
  {
  }

  lemma {:induction false} LookupStep(body: seq<byte>, pos: nat, end: nat, name: seq<byte>)
    requires pos < |body| && end == pos + IndexOf(body[pos..], AMPERSAND) && end <= |body|
    ensures var next, pair := if end < |body| then end + 1 else end, body[pos..end];
            && (pos < end && Named(pair, name) ==>
                  IndexOf(pair, EQUALS) < |pair| &&
                  Lookup(Tokens(body[pos..]), name) == Some(pair[IndexOf(pair, EQUALS) + 1..]))
            && (!(pos < end && Named(pair, name)) ==> Lookup(Tokens(body[pos..]), name) == Lookup(Tokens(body[next..]), name))
  {
    hide Tokens, IndexOf, Decoded;
    TokenStep(body, pos, end);
    var next := if end < |body| then end + 1 else end;
    if pos < end {
      assert ([body[pos..end]] + Tokens(body[next..]))[1..] == Tokens(body[next..]);
    } else {
      assert [] + Tokens(body[next..]) == Tokens(body[next..]);
    }
  }

  lemma {:induction false} NoSeparator(pair: seq<byte>, name: seq<byte>)
    requires IndexOf(pair, EQUALS) == |pair|
    ensures !Named(pair, name)
  {
  }

  lemma {:induction false} TokenStep(body: seq<byte>, pos: nat, end: nat)
    requires pos < |body| && end == pos + IndexOf(body[pos..], AMPERSAND)
    ensures end <= |body|
    ensures var next := if end < |body| then end + 1 else end;
            Tokens(body[pos..]) == (if pos < end then [body[pos..end]] else []) + Tokens(body[next..])
  {
    var s := body[pos..];
    var i := IndexOf(s, AMPERSAND);
    assert s[..i] == body[pos..end];
    if end < |body| {
      assert s[i + 1..] == body[end + 1..];
    }
  }

  /** The field lookup the routes call: on the C string in the body, cut at the body limit. */
  method FormValue(body: seq<byte>, name: seq<byte>, destination: array<byte>) returns (found: bool)
    requires destination.Length > 0
    modifies destination
    ensures var r := Lookup(Tokens(Cut(body)), name);
            && (r.None? ==> !found && destination[..] == old(destination[..]))
            && (r.Some? ==> (found <==> |Decoded(r.value)| < destination.Length))
            && (found ==> r.Some? && destination[..|Decoded(r.value)|] == Decoded(r.value) &&
                          destination[|Decoded(r.value)|] == 0)
  {
    found := ExtractFormValue(Cut(body), name, destination);
  }

  function Cut(body: seq<byte>): (r: seq<byte>) {
    var s := CStr(body);
    if |s| <= BODY_LIMIT then s else s[..BODY_LIMIT]
  }

  /** The body is read up to its first NUL, and no further than 640 bytes. */
  lemma {:induction false} BodyRead(text: seq<byte>, junk: seq<byte>)
    requires NulFree(text)
    ensures |text| <= 640 ==> Cut(text + [0] + junk) == text
    ensures |text| > 640 ==> Cut(text + [0] + junk) == text[..640]
  {
    var body := text + [0] + junk;
    assert body[..|text|] == text;
    StrLenIs(body, |text|);
  }

  // ---------------------------------------------------------------- what a browser sends

  /** Letters, digits and * - . _ stand for themselves. */
  predicate Unescaped(b: byte) {
    48 <= b <= 57 || 65 <= b <= 90 || 97 <= b <= 122 || b == 42 || b == MINUS || b == 46 || b == 95
  }

  function UpperHexDigit(v: int): (c: byte)
    requires 0 <= v < 16
    ensures HexValue(c) == v && c != AMPERSAND && c != EQUALS && c != PERCENT && c != 0
  {
    if v < 10 then 48 + v else 55 + v
  }

  function EncodeByte(b: byte): (r: seq<byte>)
    ensures AMPERSAND !in r && EQUALS !in r && 0 !in r
  {
    if Unescaped(b) then [b]
    else if b == SPACE then [PLUS]
    else [PERCENT, UpperHexDigit(b / 16), UpperHexDigit(b % 16)]
  }

  function EncodeComponent(v: seq<byte>): (r: seq<byte>)
    ensures AMPERSAND !in r && EQUALS !in r && 0 !in r
  {
    if v == [] then [] else EncodeByte(v[0]) + EncodeComponent(v[1..])
  }

  datatype Field = Field(name: seq<byte>, value: seq<byte>)

  function Pair(f: Field): (r: seq<byte>) {
    EncodeComponent(f.name) + [EQUALS] + EncodeComponent(f.value)
  }

  function Serialise(form: seq<Field>): (r: seq<byte>) {
    if form == [] then []
    else if |form| == 1 then Pair(form[0])
    else Pair(form[0]) + [AMPERSAND] + Serialise(form[1..])
  }

  lemma {:induction false} DecodeByte(b: byte, rest: seq<byte>)
    ensures Decoded(EncodeByte(b) + rest) == [b] + Decoded(rest)
    ensures WellFormed(rest) ==> WellFormed(EncodeByte(b) + rest)
  {
    var e := EncodeByte(b);
    var s := e + rest;
    WellFormedTail(s);
    if Unescaped(b) || b == SPACE {
      assert s[1..] == rest;
    } else {
      assert s[3..] == rest;
      assert 16 * (b / 16) + b % 16 == b;
    }
  }

  /** Both decoders undo the serialiser on every component. */
  lemma {:induction false} ComponentRoundTrip(v: seq<byte>)
    ensures Decoded(EncodeComponent(v)) == v && WellFormed(EncodeComponent(v))
    ensures PortalDecoded(EncodeComponent(v)) == Some(v)
  {
    hide WellFormed, Decoded, PortalDecoded, EncodeByte;
    if v == [] {
      EmptyWellFormed();
      DecodedNonEmpty([]);
    } else {
      ComponentRoundTrip(v[1..]);
      DecodeByte(v[0], EncodeComponent(v[1..]));
    }
    DecodersAgree(EncodeComponent(v));
  }

  lemma {:induction false} PairParts(f: Field)
    ensures var p := Pair(f);
            var i := |EncodeComponent(f.name)|;
            && AMPERSAND !in p && i < |p| && IndexOf(p, EQUALS) == i
            && p[..i] == EncodeComponent(f.name) && p[i + 1..] == EncodeComponent(f.value)
  {
    var p, i := Pair(f), |EncodeComponent(f.name)|;
    assert p[..i] == EncodeComponent(f.name);
    IndexOfIs(p, EQUALS, i);
  }

  lemma {:induction false} FirstToken(token: seq<byte>, rest: seq<byte>)
    requires AMPERSAND !in token && token != []
    ensures Tokens(token) == [token]
    ensures Tokens(token + [AMPERSAND] + rest) == [token] + Tokens(rest)
  {
    IndexOfAbsent(token, AMPERSAND);
    assert token[..|token|] == token;
    var s := token + [AMPERSAND] + rest;
    assert s[..|token|] == token && s[|token| + 1..] == rest;
    IndexOfIs(s, AMPERSAND, |token|);
  }

  function Pairs(form: seq<Field>): (r: seq<seq<byte>>)
    ensures |r| == |form| && forall i :: 0 <= i < |form| ==> r[i] == Pair(form[i])
  {
    seq(|form|, i requires 0 <= i < |form| => Pair(form[i]))
  }

  lemma {:induction false} TokensOfForm(form: seq<Field>)
    ensures Tokens(Serialise(form)) == Pairs(form)
    decreases |form|
  {
    hide Tokens, Pair;
    if form == [] {
      assert Tokens([]) == [] by {
        NoTokens();
      }
    } else {
      PairParts(form[0]);
      if |form| == 1 {
        FirstToken(Pair(form[0]), []);
      } else {
        TokensOfForm(form[1..]);
        FirstToken(Pair(form[0]), Serialise(form[1..]));
      }
    }
  }

  lemma {:induction false} NoTokens()
    ensures Tokens([]) == []
  {
  }

  lemma {:induction false} NamedIff(f: Field, name: seq<byte>)
    requires NulFree(f.name)
    ensures Named(Pair(f), name) <==> |f.name| < NAME_SIZE && f.name == name
  {
    hide Decoded, EncodeComponent, Pair;
    PairParts(f);
    ComponentRoundTrip(f.name);
    StrLenFull(f.name);
  }

  /** Finds the first field with the name, wherever it stands among the others. */
  lemma {:induction false} LookupPairs(form: seq<Field>, i: nat)
    requires i < |form| && |form[i].name| < NAME_SIZE
    requires forall j :: 0 <= j < |form| ==> NulFree(form[j].name)
    requires forall j :: 0 <= j < i ==> form[j].name != form[i].name
    ensures Lookup(Pairs(form), form[i].name) == Some(EncodeComponent(form[i].value))
    decreases |form|
  {
    hide Named, Pair;
    NamedIff(form[0], form[i].name);
    if i == 0 {
      PairParts(form[0]);
    } else {
      assert Pairs(form)[1..] == Pairs(form[1..]);
      LookupPairs(form[1..], i - 1);
    }
  }

  /**
   A form with distinct NUL-free names that fits the body limit: looking up any name of up to
   39 bytes finds the encoding of that field's value, and decoding that gives the value.
   */
  lemma {:induction false} FormRoundTrip(form: seq<Field>, i: nat)
    requires i < |form| && |form[i].name| < NAME_SIZE && |Serialise(form)| <= BODY_LIMIT
    requires forall j :: 0 <= j < |form| ==> NulFree(form[j].name)
    requires forall j, k :: 0 <= j < k < |form| ==> form[j].name != form[k].name
    ensures var r := Lookup(Tokens(Cut(Serialise(form))), form[i].name);
            r.Some? && Decoded(r.value) == form[i].value && PortalDecoded(r.value) == Some(form[i].value)
  {
    hide Lookup, Tokens, Decoded, PortalDecoded, Serialise;
    SerialisedNulFree(form);
    StrLenFull(Serialise(form));
    TokensOfForm(form);
    LookupPairs(form, i);
    ComponentRoundTrip(form[i].value);
  }

  lemma {:induction false} SerialisedNulFree(form: seq<Field>)
    ensures NulFree(Serialise(form))
    decreases |form|
  {
    if form != [] {
      assert 0 !in Pair(form[0]);
      SerialisedNulFree(form[1..]);
    }
  }

  /** A name the form does not have is not found. */
  lemma {:induction false} AbsentName(form: seq<Field>, name: seq<byte>)
    requires |Serialise(form)| <= BODY_LIMIT
    requires forall j :: 0 <= j < |form| ==> NulFree(form[j].name) && form[j].name != name
    ensures Lookup(Tokens(Cut(Serialise(form))), name).None?
  {
    hide Tokens, Serialise, Lookup;
    SerialisedNulFree(form);
    StrLenFull(Serialise(form));
    TokensOfForm(form);
    AbsentFromPairs(form, name);
  }

  lemma {:induction false} AbsentFromPairs(form: seq<Field>, name: seq<byte>)
    requires forall j :: 0 <= j < |form| ==> NulFree(form[j].name) && form[j].name != name
    ensures Lookup(Pairs(form), name).None?
    decreases |form|
  {
    hide Named, Pair;
    if form != [] {
      NamedIff(form[0], name);
      assert Pairs(form)[1..] == Pairs(form[1..]);
      AbsentFromPairs(form[1..], name);
    }
  }
}
