/**
 The firmware image validator of src/ota.c. An image is described from the other side, as the
 bytes some abstract image serialises to, and the validator is proved to accept exactly those.
 */
module OtaImage {
  import opened CBytes
  import opened Bits

  const HEADER_SIZE := 24            // esp_image_header_t
  const SEGMENT_HEADER_SIZE := 8     // esp_image_segment_header_t
  const DESCRIPTION_SIZE := 256      // esp_app_desc_t
  const HASH_SIZE := 32
  const IMAGE_MAGIC := 0xE9
  const DESCRIPTION_MAGIC := 0xABCD5432
  const MAX_SEGMENTS := 16
  const MAX_SEGMENT_LENGTH := 0x1000000
  const CHECKSUM_INITIAL: byte := 0xEF

  /**
   What the chip decides: its address map, and which headers and which pairs of efuse block
   revisions its boot library accepts.
   */
  datatype Platform = Platform(
    iromLow: nat, iromHigh: nat, dromLow: nat, dromHigh: nat, pageSize: nat,
    headers: set<seq<byte>>, revisions: set<(nat, nat)>)

  type Chip = p: Platform | p.pageSize > 0 witness Platform(0, 0, 0, 0, 1, {}, {})

  /** The hash library's function, taken as given. */
  type Hash = seq<byte> -> seq<byte>

  predicate Mapped(chip: Chip, address: nat) {
    chip.iromLow <= address < chip.iromHigh || chip.dromLow <= address < chip.dromHigh
  }

  // ---------------------------------------------------------------- bytes and words

  /** Byte-wise exclusive or, continued from a start value. */
  function XorAll(start: byte, s: seq<byte>): (r: byte) {
    if s == [] then start else Xor(XorAll(start, s[..|s| - 1]), s[|s| - 1])
  }

  function Half(s: seq<byte>, at: nat): (w: nat)
    requires at + 2 <= |s|
  {
    s[at] as int + 0x100 * (s[at + 1] as int)
  }

  /** The low byte of the word shifted right by 0, 8, 16 or 24 bits. */
  function WordByte(w: nat, k: nat): (b: byte)
    requires k < 4
  {
    (match k case 0 => w case 1 => w / 0x100 case 2 => w / 0x1_0000 case _ => w / 0x100_0000) % 0x100
  }

  function WordFold(w: nat): (b: byte) {
    Xor(Xor(Xor(WordByte(w, 0), WordByte(w, 1)), WordByte(w, 2)), WordByte(w, 3))
  }

  lemma {:induction false} WordByteIs(s: seq<byte>, at: nat)
    requires at + 4 <= |s|
    ensures var w := Word(s, at);
            && WordByte(w, 0) == s[at] && WordByte(w, 1) == s[at + 1]
            && WordByte(w, 2) == s[at + 2] && WordByte(w, 3) == s[at + 3]
  {
    var w := Word(s, at);
    BytesOfWord(s, at);
    var t := WordBytes(w);
    assert t[0] == s[at] && t[1] == s[at + 1] && t[2] == s[at + 2] && t[3] == s[at + 3];
    assert w / 0x100_0000 == (w / 0x100_0000) % 0x100;
  }

  lemma {:induction false} XorNothing(start: byte)
    ensures XorAll(start, []) == start
  {
  }

  lemma {:induction false} XorSnoc(start: byte, s: seq<byte>, b: byte)
    ensures XorAll(start, s + [b]) == Xor(XorAll(start, s), b)
  {
    assert (s + [b])[..|s|] == s;
  }

  lemma {:induction false} XorFour(start: byte, s: seq<byte>, a: byte, b: byte, c: byte, d: byte)
    ensures XorAll(start, s + [a, b, c, d]) == Xor(XorAll(start, s), Xor(Xor(Xor(a, b), c), d))
  {
    hide XorAll, Xor;
    assert s + [a, b, c, d] == s + [a] + [b] + [c] + [d];
    var x := XorAll(start, s);
    XorSnoc(start, s, a);
    XorSnoc(start, s + [a], b);
    XorSnoc(start, s + [a] + [b], c);
    XorSnoc(start, s + [a] + [b] + [c], d);
    XorAssoc(x, a, b);
    XorAssoc(x, Xor(a, b), c);
    XorAssoc(x, Xor(Xor(a, b), c), d);
  }

  /** The four byte casts of one word fold the same value as its four bytes one after another. */
  lemma {:induction false} WordXor(start: byte, s: seq<byte>, at: nat, n: nat)
    requires at + n + 4 <= |s|
    ensures Xor(XorAll(start, s[at..at + n]), WordFold(Word(s, at + n))) == XorAll(start, s[at..at + n + 4])
  {
    hide XorAll, Word, Xor, WordByte;
    var k := at + n;
    WordByteIs(s, k);
    XorFour(start, s[at..k], s[k], s[k + 1], s[k + 2], s[k + 3]);
    assert s[at..k] + [s[k], s[k + 1], s[k + 2], s[k + 3]] == s[at..k + 4];
  }

  // ---------------------------------------------------------------- parts of the image

  /** The part stands in the image at this offset. */
  predicate At(image: seq<byte>, offset: nat, part: seq<byte>) {
    offset + |part| <= |image| && image[offset..offset + |part|] == part
  }

  lemma {:induction false} AtConcat(image: seq<byte>, offset: nat, a: seq<byte>, b: seq<byte>)
    ensures At(image, offset, a + b) <==> At(image, offset, a) && At(image, offset + |a|, b)
  {
    if offset + |a| + |b| <= |image| {
      var whole := image[offset..offset + |a| + |b|];
      assert whole[..|a|] == image[offset..offset + |a|];
      assert whole[|a|..] == image[offset + |a|..offset + |a| + |b|];
      assert (a + b)[..|a|] == a && (a + b)[|a|..] == b;
      assert whole == whole[..|a|] + whole[|a|..];
    }
  }

  lemma {:induction false} AtSlice(image: seq<byte>, from: nat, to: nat)
    requires from <= to <= |image|
    ensures At(image, from, image[from..to])
  {
  }

  lemma {:induction false} AtWhole(image: seq<byte>, part: seq<byte>)
    ensures At(image, 0, part) && |image| == |part| <==> image == part
  {
    if At(image, 0, part) && |image| == |part| {
      assert image[0..|image|] == image;
    }
  }

  // ---------------------------------------------------------------- the image format

  datatype Segment = Segment(load: nat, data: seq<byte>)

  datatype Image = Image(header: seq<byte>, segments: seq<Segment>, padding: seq<byte>)

  predicate SegmentOk(chip: Chip, offset: nat, s: Segment) {
    && s.load < 0x1_0000_0000
    && |s.data| % 4 == 0
    && |s.data| < MAX_SEGMENT_LENGTH
    && (Mapped(chip, s.load) ==> (offset + SEGMENT_HEADER_SIZE) % chip.pageSize == s.load % chip.pageSize)
  }

  function SegmentSize(s: Segment): (n: nat) {
    SEGMENT_HEADER_SIZE + |s.data|
  }

  function SegmentBytes(s: Segment): (r: seq<byte>)
    requires s.load < 0x1_0000_0000 && |s.data| < 0x1_0000_0000
    ensures |r| == SegmentSize(s)
  {
    WordBytes(s.load) + WordBytes(|s.data|) + s.data
  }

  predicate SegmentsOk(chip: Chip, offset: nat, ss: seq<Segment>)
    decreases ss
  {
    ss == [] || (SegmentOk(chip, offset, ss[0]) && SegmentsOk(chip, offset + SegmentSize(ss[0]), ss[1..]))
  }

  function BodySize(ss: seq<Segment>): (n: nat) {
    if ss == [] then 0 else SegmentSize(ss[0]) + BodySize(ss[1..])
  }

  function Body(chip: Chip, offset: nat, ss: seq<Segment>): (r: seq<byte>)
    requires SegmentsOk(chip, offset, ss)
    ensures |r| == BodySize(ss)
    decreases ss
  {
    if ss == [] then [] else SegmentBytes(ss[0]) + Body(chip, offset + SegmentSize(ss[0]), ss[1..])
  }

  function Checksum(start: byte, ss: seq<Segment>): (c: byte)
    decreases ss
  {
    if ss == [] then start else Checksum(XorAll(start, ss[0].data), ss[1..])
  }

  /** The first segment begins with an application descriptor this chip accepts. */
  predicate DescriptionOk(chip: Chip, data: seq<byte>) {
    && |data| >= DESCRIPTION_SIZE
    && Word(data, 0) == DESCRIPTION_MAGIC
    && (Half(data, 176), Half(data, 178)) in chip.revisions
  }

  predicate HeaderOk(chip: Chip, header: seq<byte>) {
    && |header| == HEADER_SIZE
    && header[0] == IMAGE_MAGIC
    && 1 <= header[1] <= MAX_SEGMENTS
    && header in chip.headers
  }

  predicate HashAppended(header: seq<byte>)
    requires |header| == HEADER_SIZE
  {
    header[23] != 0
  }

  predicate ImageOk(chip: Chip, hash: Hash, m: Image) {
    && HeaderOk(chip, m.header)
    && |m.segments| == m.header[1]
    && SegmentsOk(chip, HEADER_SIZE, m.segments)
    && DescriptionOk(chip, m.segments[0].data)
    && |m.padding| == 15 - (HEADER_SIZE + BodySize(m.segments)) % 16
    && (HashAppended(m.header) ==> |hash(Payload(chip, m))| == HASH_SIZE)
  }

  /** Everything up to and including the checksum byte, which ends on a 16-byte boundary. */
  function Payload(chip: Chip, m: Image): (r: seq<byte>)
    requires SegmentsOk(chip, HEADER_SIZE, m.segments)
  {
    m.header + Body(chip, HEADER_SIZE, m.segments) + m.padding + [Checksum(CHECKSUM_INITIAL, m.segments)]
  }

  function Serialise(chip: Chip, hash: Hash, m: Image): (r: seq<byte>)
    requires ImageOk(chip, hash, m)
  {
    var p := Payload(chip, m);
    if HashAppended(m.header) then p + hash(p) else p
  }

  // ---------------------------------------------------------------- decoding

  function SegmentAt(chip: Chip, image: seq<byte>, offset: nat): (r: Option<Segment>) {
    if offset + SEGMENT_HEADER_SIZE > |image| then None
    else
      var load, length := Word(image, offset), Word(image, offset + 4);
      if length % 4 != 0 || length >= MAX_SEGMENT_LENGTH || offset + SEGMENT_HEADER_SIZE + length > |image| ||
         (Mapped(chip, load) && (offset + SEGMENT_HEADER_SIZE) % chip.pageSize != load % chip.pageSize)
      then None
      else Some(Segment(load, image[offset + SEGMENT_HEADER_SIZE..offset + SEGMENT_HEADER_SIZE + length]))
  }

  function SegmentsAt(chip: Chip, image: seq<byte>, offset: nat, count: nat): (r: Option<seq<Segment>>)
    decreases count
  {
    if count == 0 then Some([])
    else
      match SegmentAt(chip, image, offset)
      case None => None
      case Some(s) =>
        match SegmentsAt(chip, image, offset + SegmentSize(s), count - 1)
        case None => None
        case Some(rest) => Some([s] + rest)
  }

  /** Where the trailing checksum byte sits, given where the segments end. */
  function ChecksumAt(end: nat): (at: nat)
    ensures end <= at && (at + 1) % 16 == 0 && at - end == 15 - end % 16
  {
    (end + 1 + 15) / 16 * 16 - 1
  }

  predicate TailOk(hash: Hash, image: seq<byte>, hashed: bool, end: nat, checksum: byte) {
    var stop := ChecksumAt(end) + 1;
    && stop <= |image|
    && image[stop - 1] == checksum
    && if hashed then
         var digest := hash(image[..stop]);
         |digest| == HASH_SIZE && At(image, stop, digest) && stop + HASH_SIZE == |image|
       else stop == |image|
  }

  function Decode(chip: Chip, hash: Hash, image: seq<byte>): (r: Option<Image>) {
    if |image| < HEADER_SIZE || !HeaderOk(chip, image[..HEADER_SIZE]) then None
    else
      match SegmentsAt(chip, image, HEADER_SIZE, image[1])
      case None => None
      case Some(ss) =>
        var end := HEADER_SIZE + BodySize(ss);
        if ss == [] || !DescriptionOk(chip, ss[0].data) ||
           !TailOk(hash, image, HashAppended(image[..HEADER_SIZE]), end, Checksum(CHECKSUM_INITIAL, ss))
        then None
        else Some(Image(image[..HEADER_SIZE], ss, image[end..ChecksumAt(end)]))
  }

  lemma {:induction false} SegmentAtIff(chip: Chip, image: seq<byte>, offset: nat, s: Segment)
    ensures SegmentAt(chip, image, offset) == Some(s) <==>
            && SegmentOk(chip, offset, s)
            && At(image, offset, SegmentBytes(s))
  {
    if SegmentAt(chip, image, offset) == Some(s) {
      BytesOfWord(image, offset);
      BytesOfWord(image, offset + 4);
      AtConcat(image, offset, WordBytes(s.load), WordBytes(|s.data|));
      AtConcat(image, offset, WordBytes(s.load) + WordBytes(|s.data|), s.data);
    }
    if SegmentOk(chip, offset, s) && At(image, offset, SegmentBytes(s)) {
      AtConcat(image, offset, WordBytes(s.load) + WordBytes(|s.data|), s.data);
      AtConcat(image, offset, WordBytes(s.load), WordBytes(|s.data|));
      WordAt(image, offset, s.load);
      WordAt(image, offset + 4, |s.data|);
    }
  }

  lemma {:induction false} WordAt(image: seq<byte>, offset: nat, n: nat)
    requires n < 0x1_0000_0000 && At(image, offset, WordBytes(n))
    ensures Word(image, offset) == n
  {
    WordOfBytes(n);
    var part := image[offset..offset + 4];
    assert part[0] == image[offset] && part[1] == image[offset + 1];
    assert part[2] == image[offset + 2] && part[3] == image[offset + 3];
  }

  lemma {:induction false} SegmentsAtLength(chip: Chip, image: seq<byte>, offset: nat, count: nat)
    ensures var r := SegmentsAt(chip, image, offset, count); r.Some? ==> |r.value| == count
    decreases count
  {
    hide SegmentAt;
    var r := SegmentAt(chip, image, offset);
    if count > 0 && r.Some? {
      SegmentsAtLength(chip, image, offset + SegmentSize(r.value), count - 1);
    }
  }

  lemma {:induction false} SegmentsAtSound(chip: Chip, image: seq<byte>, offset: nat, count: nat, ss: seq<Segment>)
    requires offset <= |image| && SegmentsAt(chip, image, offset, count) == Some(ss)
    ensures SegmentsOk(chip, offset, ss) && At(image, offset, Body(chip, offset, ss))
    decreases count
  {
    hide *;
    if count == 0 {
      SegmentsAtNothing(chip, image, offset);
      EmptyBody(chip, image, offset);
    } else {
      SegmentsAtSplit(chip, image, offset, count, ss);
      var s, rest := ss[0], ss[1..];
      SegmentData(chip, image, offset, s);
      SegmentsAtSound(chip, image, offset + SegmentSize(s), count - 1, rest);
      BodyCons(chip, image, offset, s, rest);
      assert [s] + rest == ss;
    }
  }

  lemma {:induction false} EmptyBody(chip: Chip, image: seq<byte>, offset: nat)
    requires offset <= |image|
    ensures SegmentsOk(chip, offset, []) && At(image, offset, Body(chip, offset, []))
  {
  }

  lemma {:induction false} BodyCons(chip: Chip, image: seq<byte>, offset: nat, s: Segment, rest: seq<Segment>)
    requires SegmentAt(chip, image, offset) == Some(s)
    requires SegmentsOk(chip, offset + SegmentSize(s), rest)
    requires At(image, offset + SegmentSize(s), Body(chip, offset + SegmentSize(s), rest))
    ensures SegmentsOk(chip, offset, [s] + rest) && At(image, offset, Body(chip, offset, [s] + rest))
  {
    SegmentAtIff(chip, image, offset, s);
    hide At, SegmentAt;
    var next := offset + SegmentSize(s);
    assert ([s] + rest)[1..] == rest;
    AtConcat(image, offset, SegmentBytes(s), Body(chip, next, rest));
  }

  lemma {:induction false} SegmentsAtComplete(chip: Chip, image: seq<byte>, offset: nat, ss: seq<Segment>)
    requires SegmentsOk(chip, offset, ss) && At(image, offset, Body(chip, offset, ss))
    ensures SegmentsAt(chip, image, offset, |ss|) == Some(ss)
    decreases ss
  {
    hide At;
    if ss != [] {
      var next := offset + SegmentSize(ss[0]);
      AtConcat(image, offset, SegmentBytes(ss[0]), Body(chip, next, ss[1..]));
      SegmentAtIff(chip, image, offset, ss[0]);
      SegmentsAtComplete(chip, image, next, ss[1..]);
      assert [ss[0]] + ss[1..] == ss;
    }
  }

  /** Decoding finds an image exactly when the bytes are that image's serialisation, nothing left over. */
  lemma {:induction false} DecodeIff(chip: Chip, hash: Hash, image: seq<byte>, m: Image)
    ensures Decode(chip, hash, image) == Some(m) <==> ImageOk(chip, hash, m) && image == Serialise(chip, hash, m)
  {
    if Decode(chip, hash, image) == Some(m) {
      DecodeSound(chip, hash, image, m);
    }
    if ImageOk(chip, hash, m) && image == Serialise(chip, hash, m) {
      DecodeComplete(chip, hash, m);
    }
  }

  /** The byte string is the serialisation of some well-formed image. */
  ghost predicate IsImage(chip: Chip, hash: Hash, image: seq<byte>) {
    exists m: Image :: ImageOk(chip, hash, m) && image == Serialise(chip, hash, m)
  }

  lemma {:induction false} DecodesIff(chip: Chip, hash: Hash, image: seq<byte>)
    ensures Decode(chip, hash, image).Some? <==> IsImage(chip, hash, image)
  {
    var r := Decode(chip, hash, image);
    if r.Some? {
      DecodeIff(chip, hash, image, r.value);
    }
    if IsImage(chip, hash, image) {
      var m: Image :| ImageOk(chip, hash, m) && image == Serialise(chip, hash, m);
      DecodeIff(chip, hash, image, m);
    }
  }

  /** No byte string is the serialisation of two images. */
  lemma {:induction false} SerialiseInjective(chip: Chip, hash: Hash, m: Image, n: Image)
    requires ImageOk(chip, hash, m) && ImageOk(chip, hash, n)
    requires Serialise(chip, hash, m) == Serialise(chip, hash, n)
    ensures m == n
  {
    DecodeIff(chip, hash, Serialise(chip, hash, m), m);
    DecodeIff(chip, hash, Serialise(chip, hash, m), n);
  }

  /** The format is not empty: one segment holding a blank descriptor. */
  lemma {:induction false} SomeImage(hash: Hash)
    ensures exists chip: Chip, m :: ImageOk(chip, hash, m)
  {
    var header: seq<byte> := [IMAGE_MAGIC, 1] + Zeros(22);
    var chip: Chip := Platform(0, 0, 0, 0, 1, {header}, {(0, 0)});
    var data := WordBytes(DESCRIPTION_MAGIC) + Zeros(252);
    assert data[0..4] == WordBytes(DESCRIPTION_MAGIC);
    WordAt(data, 0, DESCRIPTION_MAGIC);
    assert data[176] == 0 && data[177] == 0 && data[178] == 0 && data[179] == 0;
    var ss := [Segment(0, data)];
    assert ss[1..] == [] && BodySize(ss) == 264;
    assert SegmentOk(chip, HEADER_SIZE, ss[0]) && SegmentsOk(chip, HEADER_SIZE, ss);
    assert DescriptionOk(chip, data);
    assert header[0] == IMAGE_MAGIC && header[1] == 1 && header[23] == 0;
    assert HeaderOk(chip, header);
    assert ImageOk(chip, hash, Image(header, ss, Zeros(15)));
  }

  lemma {:induction false} AtPrefix(image: seq<byte>, part: seq<byte>)
    requires At(image, 0, part)
    ensures |part| <= |image| && image[..|part|] == part
  {
    assert image[0..|part|] == image[..|part|];
  }

  lemma {:induction false} DecodePayload(chip: Chip, hash: Hash, image: seq<byte>, m: Image)
    requires Decode(chip, hash, image) == Some(m)
    ensures SegmentsOk(chip, HEADER_SIZE, m.segments) && |m.segments| == m.header[1]
    ensures At(image, 0, Payload(chip, m))
  {
    hide SegmentsAt, SegmentsOk, Body, BodySize, Checksum;
    SegmentsAtLength(chip, image, HEADER_SIZE, image[1]);
    SegmentsAtSound(chip, image, HEADER_SIZE, image[1], m.segments);
    var end := HEADER_SIZE + BodySize(m.segments);
    var at := ChecksumAt(end);
    AtSlice(image, 0, HEADER_SIZE);
    assert image[0..HEADER_SIZE] == m.header;
    AtSlice(image, end, at);
    AtSlice(image, at, at + 1);
    assert image[at..at + 1] == [Checksum(CHECKSUM_INITIAL, m.segments)];
    hide At;
    PayloadAtIff(chip, image, m);
  }

  lemma {:induction false} DecodeSound(chip: Chip, hash: Hash, image: seq<byte>, m: Image)
    requires Decode(chip, hash, image) == Some(m)
    ensures ImageOk(chip, hash, m) && image == Serialise(chip, hash, m)
  {
    hide SegmentsAt, SegmentsOk, Body, BodySize, Checksum, At;
    DecodePayload(chip, hash, image, m);
    AtPrefix(image, Payload(chip, m));
    if HashAppended(m.header) {
      AtConcat(image, 0, Payload(chip, m), hash(Payload(chip, m)));
    }
    AtWhole(image, Serialise(chip, hash, m));
  }

  /** The payload stands at the start of an image exactly when its four parts stand in their places. */
  lemma {:induction false} PayloadAtIff(chip: Chip, image: seq<byte>, m: Image)
    requires SegmentsOk(chip, HEADER_SIZE, m.segments) && |m.header| == HEADER_SIZE
    ensures var end := HEADER_SIZE + BodySize(m.segments);
            At(image, 0, Payload(chip, m)) <==>
            && At(image, 0, m.header)
            && At(image, HEADER_SIZE, Body(chip, HEADER_SIZE, m.segments))
            && At(image, end, m.padding)
            && At(image, end + |m.padding|, [Checksum(CHECKSUM_INITIAL, m.segments)])
  {
    hide At;
    var body, sum := Body(chip, HEADER_SIZE, m.segments), [Checksum(CHECKSUM_INITIAL, m.segments)];
    AtConcat(image, 0, m.header, body);
    AtConcat(image, 0, m.header + body, m.padding);
    AtConcat(image, 0, m.header + body + m.padding, sum);
  }

  lemma {:induction false} DecodeComplete(chip: Chip, hash: Hash, m: Image)
    requires ImageOk(chip, hash, m)
    ensures Decode(chip, hash, Serialise(chip, hash, m)) == Some(m)
  {
    hide SegmentsAt, SegmentsOk, Body, BodySize, Checksum;
    var image := Serialise(chip, hash, m);
    var p := Payload(chip, m);
    var end := HEADER_SIZE + BodySize(m.segments);
    AtWhole(image, image);
    if HashAppended(m.header) {
      AtConcat(image, 0, p, hash(p));
    }
    PayloadAtIff(chip, image, m);
    SegmentsAtComplete(chip, image, HEADER_SIZE, m.segments);
    AtPrefix(image, p);
    AtPrefix(image, m.header);
    assert image[end..ChecksumAt(end)] == m.padding;
    assert image[ChecksumAt(end)..ChecksumAt(end) + 1][0] == image[ChecksumAt(end)];
    assert TailOk(hash, image, HashAppended(m.header), end, Checksum(CHECKSUM_INITIAL, m.segments));
  }

  // ---------------------------------------------------------------- the validator

  datatype Status = Valid | InvalidArgument | ImageInvalid | Failure

  function Shown(c: byte): (r: byte) {
    if 0x20 <= c <= 0x7e && c != 34 && c != 92 then c else 63
  }

  /** The version text of a descriptor: up to the first NUL, unprintable characters as question marks. */
  function VersionText(data: seq<byte>): (v: seq<byte>)
    requires |data| >= DESCRIPTION_SIZE
  {
    var text := CStr(data[16..48]);
    if text == [] then UNAVAILABLE else seq(|text|, i requires 0 <= i < |text| => Shown(text[i]))
  }

  const UNAVAILABLE: seq<byte> := [117, 110, 97, 118, 97, 105, 108, 97, 98, 108, 101]

  method CopyImageVersion(data: seq<byte>) returns (version: seq<byte>)
    requires |data| >= DESCRIPTION_SIZE
    ensures version == VersionText(data)
  {
    var field := data[16..48];
    version := [];
    var i := 0;
    while i < 32 && field[i] != 0
      invariant i <= 32 && |version| == i && NulFree(field[..i])
      invariant forall k :: 0 <= k < i ==> version[k] == Shown(field[k])
    {
      version := version + [Shown(field[i])];
      i := i + 1;
    }
    if i < 32 {
      StrLenIs(field, i);
    } else {
      StrLenFull(field);
      assert field[..i] == field;
    }
    if i == 0 {
      version := UNAVAILABLE;
    }
  }

  /** The fields of an application descriptor that the validator looks at, and those between them. */
  datatype Descriptor = Descriptor(
    magic: nat, reserved: seq<byte>, version: seq<byte>, names: seq<byte>, minRevision: nat, maxRevision: nat, rest: seq<byte>)

  predicate DescriptorOk(d: Descriptor) {
    && d.magic < 0x1_0000_0000 && |d.reserved| == 12 && |d.version| == 32 && |d.names| == 128
    && d.minRevision < 0x1_0000 && d.maxRevision < 0x1_0000 && |d.rest| == 76
  }

  function HalfBytes(n: nat): (r: seq<byte>)
    requires n < 0x1_0000
  {
    [n % 0x100, n / 0x100]
  }

  function DescriptorBytes(d: Descriptor): (r: seq<byte>)
    requires DescriptorOk(d)
    ensures |r| == 256
  {
    WordBytes(d.magic) + d.reserved + d.version + d.names + HalfBytes(d.minRevision) + HalfBytes(d.maxRevision) + d.rest
  }

  lemma {:induction false} DescriptorFields(d: Descriptor, data: seq<byte>)
    requires DescriptorOk(d) && DescriptorBytes(d) <= data
    ensures data[..4] == WordBytes(d.magic) && data[16..48] == d.version
    ensures data[176..178] == HalfBytes(d.minRevision) && data[178..180] == HalfBytes(d.maxRevision)
  {
    var r := DescriptorBytes(d);
    assert r[..4] == WordBytes(d.magic) && r[16..48] == d.version;
    assert r[176..178] == HalfBytes(d.minRevision) && r[178..180] == HalfBytes(d.maxRevision);
    assert data[..256] == r;
    assert data[16..48] == data[..256][16..48] && data[..4] == data[..256][..4];
    assert data[176..178] == data[..256][176..178] && data[178..180] == data[..256][178..180];
  }

  /** A descriptor is accepted for its magic word and its pair of revisions alone. */
  lemma {:induction false} DescriptorAccepted(chip: Chip, d: Descriptor, data: seq<byte>)
    requires DescriptorOk(d) && DescriptorBytes(d) <= data
    ensures DescriptionOk(chip, data) <==> d.magic == 0xABCD5432 && (d.minRevision, d.maxRevision) in chip.revisions
  {
    hide DescriptorBytes;
    DescriptorFields(d, data);
    WordAt(data, 0, d.magic);
    assert Half(data, 176) == Half(data[176..178], 0) && Half(data, 178) == Half(data[178..180], 0);
  }

  /**
   The version shown is the text of the descriptor's version field: as far as its first NUL, if
   it has one, with a question mark for anything unprintable, quotation marks and backslashes;
   the word unavailable for an empty one.
   */
  lemma {:induction false} VersionShown(d: Descriptor, data: seq<byte>, n: nat)
    requires DescriptorOk(d) && DescriptorBytes(d) <= data
    requires n <= 32 && NulFree(d.version[..n]) && (n < 32 ==> d.version[n] == 0)
    ensures n == 0 ==> VersionText(data) == [117, 110, 97, 118, 97, 105, 108, 97, 98, 108, 101]
    ensures n > 0 ==> |VersionText(data)| == n
    ensures n > 0 ==> forall i :: 0 <= i < n ==>
                        VersionText(data)[i] == var c := d.version[i];
                                                if c < 0x20 || c > 0x7e || c == 34 || c == 92 then 63 else c
  {
    hide DescriptorBytes;
    DescriptorFields(d, data);
    if n < 32 {
      StrLenIs(d.version, n);
    } else {
      assert d.version[..n] == d.version;
      StrLenFull(d.version);
    }
  }

  /** The word loop over one segment's data. */
  method FoldWords(image: seq<byte>, offset: nat, length: nat, start: byte) returns (checksum: byte)
    requires offset + length <= |image| && length % 4 == 0
    ensures checksum == XorAll(start, image[offset..offset + length])
  {
    hide XorAll, Word, WordFold, Xor;
    checksum := start;
    var n := 0;
    ghost var k := 0;
    assert image[offset..offset] == [];
    XorNothing(start);
    while n < length
      invariant n == 4 * k <= length
      invariant checksum == XorAll(start, image[offset..offset + n])
    {
      WordXor(start, image, offset, n);
      checksum := Xor(checksum, WordFold(Word(image, offset + n)));
      n, k := n + 4, k + 1;
    }
  }

  lemma {:induction false} SnocSegment(start: byte, ss: seq<Segment>, s: Segment)
    ensures BodySize(ss + [s]) == BodySize(ss) + SegmentSize(s)
    ensures Checksum(start, ss + [s]) == XorAll(Checksum(start, ss), s.data)
    decreases ss
  {
    if ss == [] {
      assert ss + [s] == [s];
    } else {
      assert (ss + [s])[1..] == ss[1..] + [s];
      SnocSegment(XorAll(start, ss[0].data), ss[1..], s);
    }
  }

  /** The calls into the hash library from the first to the n-th succeed, if there are any. */
  ghost predicate HashCallsOk(faults: set<nat>, hashed: bool, n: nat) {
    hashed ==> forall k: nat :: k < n ==> k !in faults
  }

  lemma {:induction false} SegmentsAtCons(chip: Chip, image: seq<byte>, offset: nat, count: nat, s: Segment, rest: seq<Segment>)
    requires SegmentAt(chip, image, offset) == Some(s)
    requires SegmentsAt(chip, image, offset + SegmentSize(s), count) == Some(rest)
    ensures SegmentsAt(chip, image, offset, count + 1) == Some([s] + rest)
  {
  }

  lemma {:induction false} SegmentsAtSplit(chip: Chip, image: seq<byte>, offset: nat, count: nat, ss: seq<Segment>)
    requires count > 0 && SegmentsAt(chip, image, offset, count) == Some(ss)
    ensures ss != [] && SegmentAt(chip, image, offset) == Some(ss[0])
    ensures SegmentsAt(chip, image, offset + SegmentSize(ss[0]), count - 1) == Some(ss[1..])
  {
    hide SegmentAt;
    var s := SegmentAt(chip, image, offset).value;
    var rest := SegmentsAt(chip, image, offset + SegmentSize(s), count - 1).value;
    assert ([s] + rest)[1..] == rest;
  }

  lemma {:induction false} SegmentsAtNothing(chip: Chip, image: seq<byte>, offset: nat)
    ensures SegmentsAt(chip, image, offset, 0) == Some([])
  {
  }

  /** One more segment behind those already decoded. */
  lemma {:induction false} SegmentsAtSnoc(chip: Chip, image: seq<byte>, offset: nat, count: nat, ss: seq<Segment>, s: Segment)
    requires SegmentsAt(chip, image, offset, count) == Some(ss)
    requires SegmentAt(chip, image, offset + BodySize(ss)) == Some(s)
    ensures SegmentsAt(chip, image, offset, count + 1) == Some(ss + [s])
    decreases count
  {
    hide *;
    SegmentsAtNothing(chip, image, offset);
    SegmentsAtNothing(chip, image, offset + SegmentSize(s));
    FirstOfMany(ss, s);
    if count == 0 {
      SegmentsAtCons(chip, image, offset, 0, s, []);
    } else {
      SegmentsAtSplit(chip, image, offset, count, ss);
      SegmentsAtSnoc(chip, image, offset + SegmentSize(ss[0]), count - 1, ss[1..], s);
      SegmentsAtCons(chip, image, offset, count, ss[0], ss[1..] + [s]);
    }
  }

  lemma {:induction false} FirstOfMany(ss: seq<Segment>, s: Segment)
    ensures ss == [] ==> BodySize(ss) == 0 && ss + [s] == [s] + []
    ensures ss != [] ==> BodySize(ss) == SegmentSize(ss[0]) + BodySize(ss[1..]) && ss + [s] == [ss[0]] + (ss[1..] + [s])
  {
  }

  lemma {:induction false} SegmentsAtFails(chip: Chip, image: seq<byte>, offset: nat, n: nat)
    requires n > 0
    requires match SegmentAt(chip, image, offset)
             case None => true
             case Some(s) => SegmentsAt(chip, image, offset + SegmentSize(s), n - 1).None?
    ensures SegmentsAt(chip, image, offset, n).None?
  {
  }

  /** A bad segment behind those already decoded spoils the whole. */
  lemma {:induction false} SegmentsAtStuck(chip: Chip, image: seq<byte>, offset: nat, count: nat, ss: seq<Segment>, n: nat)
    requires SegmentsAt(chip, image, offset, count) == Some(ss) && count < n
    requires SegmentAt(chip, image, offset + BodySize(ss)).None?
    ensures SegmentsAt(chip, image, offset, n).None?
    decreases count
  {
    hide SegmentAt;
    if count > 0 {
      SegmentsAtSplit(chip, image, offset, count, ss);
      SegmentsAtStuck(chip, image, offset + SegmentSize(ss[0]), count - 1, ss[1..], n - 1);
    }
    SegmentsAtFails(chip, image, offset, n);
  }

  /** One pass of the segment loop; the two hash updates are the library calls first and first + 1. */
  method ReadSegment(chip: Chip, image: seq<byte>, offset: nat, start: byte, first: nat, hashed: bool,
                     faults: set<nat>)
    returns (status: Status, next: nat, checksum: byte, part: seq<byte>, ghost s: Segment)
    requires offset <= |image|
    ensures if status == Valid then
              && SegmentAt(chip, image, offset) == Some(s)
              && next == offset + SegmentSize(s) <= |image|
              && checksum == XorAll(start, s.data)
              && part == image[offset..next]
              && (hashed ==> first !in faults && first + 1 !in faults)
            else SegmentAt(chip, image, offset).None? || (hashed && !(first !in faults && first + 1 !in faults))
    ensures status != InvalidArgument
  {
    next, checksum, part, s := offset, start, [], Segment(0, []);
    if offset + SEGMENT_HEADER_SIZE > |image| {
      status := ImageInvalid;
      return;
    }
    var load, length := Word(image, offset), Word(image, offset + 4);
    if length % 4 != 0 || length >= MAX_SEGMENT_LENGTH || offset + SEGMENT_HEADER_SIZE + length > |image| ||
       (Mapped(chip, load) && (offset + SEGMENT_HEADER_SIZE) % chip.pageSize != load % chip.pageSize)
    {
      status := ImageInvalid;
      return;
    }
    if hashed && first in faults {
      status := Failure;
      return;
    }
    var data := offset + SEGMENT_HEADER_SIZE;
    s := Segment(load, image[data..data + length]);
    checksum := FoldWords(image, data, length, start);
    if hashed && first + 1 in faults {
      status := Failure;
      return;
    }
    part := image[offset..data] + image[data..data + length];
    status, next := Valid, data + length;
  }

  lemma {:induction false} HashCallsMore(faults: set<nat>, hashed: bool, k: nat, n: nat)
    requires HashCallsOk(faults, hashed, k) && k + 2 <= n
    ensures HashCallsOk(faults, hashed, k + 2) <==> (hashed ==> k !in faults && k + 1 !in faults)
    ensures HashCallsOk(faults, hashed, n) ==> HashCallsOk(faults, hashed, k + 2)
  {
  }

  /** The validator's running values: fed is what the hash has taken in so far. */
  datatype Scan = Scan(offset: nat, checksum: byte, fed: seq<byte>, version: seq<byte>)

  /** What the segment loop knows after the segments ss. */
  ghost predicate Scanned(chip: Chip, image: seq<byte>, ss: seq<Segment>, c: Scan) {
    && c.offset == HEADER_SIZE + BodySize(ss) <= |image|
    && c.checksum == Checksum(CHECKSUM_INITIAL, ss)
    && c.fed == image[..c.offset]
    && (ss != [] ==> DescriptionOk(chip, ss[0].data) && c.version == VersionText(ss[0].data))
  }

  lemma {:induction false} ScannedMore(chip: Chip, image: seq<byte>, ss: seq<Segment>, s: Segment, c: Scan, d: Scan)
    requires Scanned(chip, image, ss, c)
    requires SegmentAt(chip, image, c.offset) == Some(s)
    requires d.offset == c.offset + SegmentSize(s) <= |image|
    requires d.checksum == XorAll(c.checksum, s.data) && d.fed == c.fed + image[c.offset..d.offset]
    requires if ss == [] then DescriptionOk(chip, s.data) && d.version == VersionText(s.data)
             else d.version == c.version
    ensures Scanned(chip, image, ss + [s], d)
  {
    hide SegmentAt, DescriptionOk, VersionText, XorAll, Checksum, BodySize;
    SegmentData(chip, image, c.offset, s);
    SnocSegment(CHECKSUM_INITIAL, ss, s);
    assert image[..c.offset] + image[c.offset..d.offset] == image[..d.offset];
  }

  /** One pass of the segment loop, with the descriptor check in the first pass. */
  method ScanSegment(chip: Chip, image: seq<byte>, ghost ss: seq<Segment>, isFirst: bool, c: Scan,
                     first: nat, hashed: bool, faults: set<nat>)
    returns (status: Status, d: Scan, ghost s: Segment)
    requires Scanned(chip, image, ss, c) && isFirst == (ss == [])
    ensures if status == Valid then
              && SegmentAt(chip, image, c.offset) == Some(s)
              && Scanned(chip, image, ss + [s], d)
              && (hashed ==> first !in faults && first + 1 !in faults)
            else
              || SegmentAt(chip, image, c.offset).None?
              || (hashed && !(first !in faults && first + 1 !in faults))
              || (isFirst && !DescriptionOk(chip, SegmentAt(chip, image, c.offset).value.data))
    ensures status != InvalidArgument
  {
    hide SegmentAt, XorAll, DescriptionOk, VersionText, BodySize, Checksum;
    var next, checksum, part;
    status, next, checksum, part, s := ReadSegment(chip, image, c.offset, c.checksum, first, hashed, faults);
    d := Scan(next, checksum, c.fed + part, c.version);
    if status != Valid {
      return;
    }
    if isFirst {
      var data := image[c.offset + SEGMENT_HEADER_SIZE..next];
      SegmentData(chip, image, c.offset, s);
      if !DescriptionOk(chip, data) {
        status := ImageInvalid;
        return;
      }
      DescriptionLong(chip, data);
      var version := CopyImageVersion(data);
      d := d.(version := version);
    }
    ScannedMore(chip, image, ss, s, c, d);
  }

  /** The segments decode, start with a good descriptor, and every hash call on them succeeds. */
  ghost predicate Readable(chip: Chip, image: seq<byte>, n: nat, hashed: bool, faults: set<nat>) {
    var decoded := SegmentsAt(chip, image, HEADER_SIZE, n);
    && decoded.Some? && decoded.value != [] && DescriptionOk(chip, decoded.value[0].data)
    && HashCallsOk(faults, hashed, 2 + 2 * n)
  }

  lemma {:induction false} NotReadable(chip: Chip, image: seq<byte>, n: nat, hashed: bool, faults: set<nat>,
                                       ss: seq<Segment>, c: Scan)
    requires |ss| < n && Scanned(chip, image, ss, c)
    requires SegmentsAt(chip, image, HEADER_SIZE, |ss|) == Some(ss)
    requires var r := SegmentAt(chip, image, c.offset);
             || r.None?
             || (ss == [] && !DescriptionOk(chip, r.value.data))
             || (hashed && !(2 + 2 * |ss| !in faults && 3 + 2 * |ss| !in faults))
    ensures !Readable(chip, image, n, hashed, faults)
  {
    hide SegmentAt, DescriptionOk, XorAll;
    if SegmentAt(chip, image, c.offset).None? {
      SegmentsAtStuck(chip, image, HEADER_SIZE, |ss|, ss, n);
    }
  }

  lemma {:induction false} AllReadable(chip: Chip, image: seq<byte>, n: nat, hashed: bool, faults: set<nat>,
                                       ss: seq<Segment>, c: Scan)
    requires n > 0 && |ss| == n && SegmentsAt(chip, image, HEADER_SIZE, n) == Some(ss)
    requires HashCallsOk(faults, hashed, 2 + 2 * n) && Scanned(chip, image, ss, c)
    ensures Readable(chip, image, n, hashed, faults)
  {
  }

  /** The state of the loop before each pass. */
  ghost predicate InLoop(chip: Chip, image: seq<byte>, hashed: bool, faults: set<nat>, ss: seq<Segment>, c: Scan) {
    && SegmentsAt(chip, image, HEADER_SIZE, |ss|) == Some(ss)
    && HashCallsOk(faults, hashed, 2 + 2 * |ss|)
    && Scanned(chip, image, ss, c)
  }

  lemma {:induction false} ScannedOffset(chip: Chip, image: seq<byte>, ss: seq<Segment>, c: Scan)
    requires Scanned(chip, image, ss, c)
    ensures c.offset == HEADER_SIZE + BodySize(ss)
  {
  }

  lemma {:induction false} InLoopMore(chip: Chip, image: seq<byte>, hashed: bool, faults: set<nat>,
                                      ss: seq<Segment>, c: Scan, s: Segment, d: Scan)
    requires InLoop(chip, image, hashed, faults, ss, c)
    requires SegmentAt(chip, image, c.offset) == Some(s) && Scanned(chip, image, ss + [s], d)
    requires hashed ==> 2 + 2 * |ss| !in faults && 3 + 2 * |ss| !in faults
    ensures InLoop(chip, image, hashed, faults, ss + [s], d)
  {
    hide SegmentsAt, SegmentAt, Scanned, HashCallsOk;
    ScannedOffset(chip, image, ss, c);
    SegmentsAtSnoc(chip, image, HEADER_SIZE, |ss|, ss, s);
    HashCallsMore(faults, hashed, 2 + 2 * |ss|, 4 + 2 * |ss|);
    assert |ss + [s]| == 1 + |ss|;
  }

  lemma {:induction false} InLoopStart(chip: Chip, image: seq<byte>, hashed: bool, faults: set<nat>)
    requires |image| >= HEADER_SIZE && HashCallsOk(faults, hashed, 2)
    ensures InLoop(chip, image, hashed, faults, [], Scan(HEADER_SIZE, CHECKSUM_INITIAL, image[..HEADER_SIZE], []))
  {
  }

  /** The segment loop. */
  method ReadSegments(chip: Chip, image: seq<byte>, n: nat, hashed: bool, faults: set<nat>, start: Scan)
    returns (status: Status, c: Scan, ghost ss: seq<Segment>)
    requires n > 0 && InLoop(chip, image, hashed, faults, [], start)
    ensures status == Valid <==> Readable(chip, image, n, hashed, faults)
    ensures status == Valid ==>
              SegmentsAt(chip, image, HEADER_SIZE, n) == Some(ss) && Scanned(chip, image, ss, c)
    ensures status != InvalidArgument
  {
    hide Scanned, SegmentsAt, SegmentAt, HashCallsOk, Readable, DescriptionOk;
    c, ss := start, [];
    var index: nat := 0;
    while index < n
      invariant index == |ss| <= n
      invariant InLoop(chip, image, hashed, faults, ss, c)
    {
      ghost var s;
      var d;
      status, d, s := ScanSegment(chip, image, ss, index == 0, c, 2 + 2 * index, hashed, faults);
      if status != Valid {
        NotReadable(chip, image, n, hashed, faults, ss, c);
        return;
      }
      InLoopMore(chip, image, hashed, faults, ss, c, s, d);
      index, c, ss := index + 1, d, ss + [s];
    }
    status := Valid;
    AllReadable(chip, image, n, hashed, faults, ss, c);
  }

  lemma {:induction false} DescriptionLong(chip: Chip, data: seq<byte>)
    requires DescriptionOk(chip, data)
    ensures |data| >= DESCRIPTION_SIZE
  {
  }

  lemma {:induction false} SegmentData(chip: Chip, image: seq<byte>, offset: nat, s: Segment)
    requires SegmentAt(chip, image, offset) == Some(s)
    ensures offset + SegmentSize(s) <= |image|
    ensures image[offset + SEGMENT_HEADER_SIZE..offset + SegmentSize(s)] == s.data
  {
  }

  /** Checksum byte, appended hash and the end of the image. */
  method CheckTail(hash: Hash, image: seq<byte>, hashed: bool, c: Scan, calls: nat, faults: set<nat>)
    returns (status: Status)
    requires c.offset <= |image| && c.fed == image[..c.offset]
    ensures status == Valid <==>
            TailOk(hash, image, hashed, c.offset, c.checksum) && (hashed ==> calls !in faults && calls + 1 !in faults)
    ensures status != InvalidArgument
  {
    var fed, offset := c.fed, c.offset;
    var checksumLength := (offset + 1 + 15) / 16 * 16 - offset;
    assert offset + checksumLength == ChecksumAt(c.offset) + 1;
    if offset + checksumLength > |image| || image[offset + checksumLength - 1] != c.checksum {
      return ImageInvalid;
    }
    if hashed && calls in faults {
      return Failure;
    }
    fed := fed + image[offset..offset + checksumLength];
    offset := offset + checksumLength;
    assert fed == image[..offset];
    if hashed {
      var digest := hash(fed);
      if calls + 1 in faults || |digest| != HASH_SIZE || offset + HASH_SIZE > |image| ||
         image[offset..offset + HASH_SIZE] != digest
      {
        return ImageInvalid;
      }
      offset := offset + HASH_SIZE;
    }
    return if offset == |image| then Valid else ImageInvalid;
  }

  /**
   The whole validator. It accepts exactly the byte strings that are images and for which
   every call into the hash library succeeds.
   */
  method ValidateStagedImage(chip: Chip, hash: Hash, image: seq<byte>, faults: set<nat>)
    returns (status: Status, version: seq<byte>)
    ensures status == Valid <==>
            && IsImage(chip, hash, image)
            && HashCallsOk(faults, HashAppended(image[..HEADER_SIZE]), 4 + 2 * image[1])
    ensures status == Valid ==> Decode(chip, hash, image).Some?
    ensures status == Valid ==> version == VersionText(Decode(chip, hash, image).value.segments[0].data)
    ensures status == InvalidArgument <==> |image| < HEADER_SIZE
  {
    hide SegmentsAt, BodySize, Checksum, TailOk, DescriptionOk, InLoop, IsImage;
    DecodesIff(chip, hash, image);
    version := [];
    if |image| < HEADER_SIZE {
      return InvalidArgument, version;
    }
    var header := image[..HEADER_SIZE];
    if !(header[0] == IMAGE_MAGIC && 1 <= header[1] <= MAX_SEGMENTS && header in chip.headers) {
      return ImageInvalid, version;
    }
    var hashed := HashAppended(header);
    if hashed && !(0 !in faults && 1 !in faults) {
      return Failure, version;
    }
    var c: Scan;
    ghost var ss;
    InLoopStart(chip, image, hashed, faults);
    status, c, ss := ReadSegments(chip, image, header[1], hashed, faults,
                                  Scan(HEADER_SIZE, CHECKSUM_INITIAL, header, []));
    if status == Valid {
      version := c.version;
      status := CheckTail(hash, image, hashed, c, 2 + 2 * image[1], faults);
    }
  }
}
