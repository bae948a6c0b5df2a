/**
 The fixed-capacity API token store of src/api-token-store.c: one NVS blob that is loaded,
 validated, edited in place and written back as a whole.
 */
module ApiTokens {
  import opened CBytes

  const VALID_EPOCH := 1704067200
  const YEAR_10000 := 253402300800   // strftime needs five digits for the year from here on
  const ID_BYTES := 8
  const SALT_BYTES := 16
  const VERIFIER_BYTES := 32
  const RANDOM_BYTES := 32
  const NAME_MAX := 32
  const ID_ATTEMPTS := 8
  const RECORD_SIZE := 112
  const PREFIX: seq<byte> := [101, 115, 112, 51, 50, 110, 117, 116, 95, 118, 49, 95]
  const TOKEN_LENGTH := 76

  /** A scope mask, as the set of its bits. */
  type Scopes = set<nat>

  datatype Record = Record(
    issuedAt: int, scopes: Scopes, active: byte, id: seq<byte>, salt: seq<byte>, verifier: seq<byte>,
    name: seq<byte>, finalFour: seq<byte>)

  const BLANK := Record(0, {}, 0, Zeros(ID_BYTES), Zeros(SALT_BYTES), Zeros(VERIFIER_BYTES), Zeros(NAME_MAX + 1), Zeros(5))

  datatype Blob = Blob(version: nat, recordSize: nat, records: seq<Record>)

  datatype Config = Config(version: nat, scope: Scopes, count: nat)

  type Hash = seq<byte> -> seq<byte>

  // ---------------------------------------------------------------- hexadecimal text

  function LowerHexValue(c: byte): (n: int)
    ensures -1 <= n < 16
  {
    if 48 <= c <= 57 then c - 48 else if 97 <= c <= 102 then c - 87 else -1
  }

  function ToHex(s: seq<byte>): (r: seq<byte>)
    ensures |r| == 2 * |s|
  {
    if s == [] then [] else [HexDigit(s[0] / 16), HexDigit(s[0] % 16)] + ToHex(s[1..])
  }

  function FromHex(h: seq<byte>): (r: Option<seq<byte>>)
    ensures r.Some? ==> |h| == 2 * |r.value|
  {
    if h == [] then Some([])
    else if |h| == 1 || LowerHexValue(h[0]) < 0 || LowerHexValue(h[1]) < 0 then None
    else
      match FromHex(h[2..])
      case None => None
      case Some(rest) => Some([16 * LowerHexValue(h[0]) + LowerHexValue(h[1])] + rest)
  }

  /** A listed identifier leads back to the identifier it was made from. */
  lemma {:induction false} HexRoundTrip(s: seq<byte>)
    ensures FromHex(ToHex(s)) == Some(s)
    decreases s
  {
    if s != [] {
      HexRoundTrip(s[1..]);
      var h := ToHex(s);
      assert h[2..] == ToHex(s[1..]);
      assert [s[0]] + s[1..] == s;
    }
  }

  /** And no two texts lead to the same identifier. */
  lemma {:induction false} HexInjective(h: seq<byte>)
    requires FromHex(h).Some?
    ensures ToHex(FromHex(h).value) == h
    decreases h
  {
    if h != [] {
      HexInjective(h[2..]);
      assert h == [h[0], h[1]] + h[2..];
      var r := FromHex(h).value;
      assert r[1..] == FromHex(h[2..]).value;
    }
  }

  // ---------------------------------------------------------------- what a valid store is

  predicate NameByte(c: byte) {
    97 <= c <= 122 || 65 <= c <= 90 || 48 <= c <= 57 || c == 32 || c == 45 || c == 95 || c == 46
  }

  predicate NameValid(name: seq<byte>) {
    && 0 < |name| <= NAME_MAX
    && name[0] != 32 && name[|name| - 1] != 32
    && forall i :: 0 <= i < |name| ==> NameByte(name[i])
  }

  function NameKey(r: Record): (k: seq<byte>) {
    LowerAll(CStr(r.name))
  }

  predicate ShapeOk(r: Record) {
    |r.id| == ID_BYTES && |r.salt| == SALT_BYTES && |r.verifier| == VERIFIER_BYTES &&
    |r.name| == NAME_MAX + 1 && |r.finalFour| == 5
  }

  /** An inactive record is valid whatever else it holds. */
  predicate RecordValid(c: Config, r: Record) {
    && ShapeOk(r)
    && (r.active != 0 ==>
        && r.active == 1
        && r.id != Zeros(ID_BYTES)
        && r.scopes == c.scope
        && r.issuedAt >= VALID_EPOCH
        && r.name[NAME_MAX] == 0 && NameValid(CStr(r.name))
        && r.finalFour[4] == 0
        && forall i :: 0 <= i < 4 ==> LowerHexValue(r.finalFour[i]) >= 0)
  }

  predicate Clash(a: Record, b: Record) {
    a.active == 1 && b.active == 1 && (NameKey(a) == NameKey(b) || a.id == b.id)
  }

  predicate RecordsValid(c: Config, rs: seq<Record>) {
    && (forall i :: 0 <= i < |rs| ==> RecordValid(c, rs[i]))
    && (forall i, j :: 0 <= i < j < |rs| ==> !Clash(rs[i], rs[j]))
  }

  datatype Error = ReadFailed | InvalidVersion | InvalidContent | InvalidArgument | InvalidState | NoMemory | NotFound | Failed

  datatype Result<T> = Ok(value: T) | Err(error: Error)

  /** api_token_store_load on a readable NVS; an absent blob reads as an empty store. */
  function Load(c: Config, nvs: Option<Blob>): (r: Result<seq<Record>>) {
    match nvs
    case None => Ok(seq(c.count, _ => BLANK))
    case Some(b) =>
      if |b.records| != c.count || b.version != c.version || b.recordSize != RECORD_SIZE then Err(InvalidVersion)
      else if !RecordsValid(c, b.records) then Err(InvalidContent)
      else Ok(b.records)
  }

  // ---------------------------------------------------------------- the operations on values

  /** How far writing the blob back got: the write itself is atomic, the commit may still fail. */
  datatype Save = Saved | NotWritten | CommitFailed

  function Written(c: Config, nvs: Option<Blob>, rs: seq<Record>, save: Save): (n: Option<Blob>) {
    if save.NotWritten? then nvs else Some(Blob(c.version, RECORD_SIZE, rs))
  }

  /** The random draws and outcomes behind one creation. */
  datatype Draw = Draw(ids: seq<seq<byte>>, secret: seq<byte>, salt: seq<byte>, hashOk: bool, save: Save)

  predicate DrawOk(d: Draw) {
    && |d.ids| == ID_ATTEMPTS && (forall i :: 0 <= i < ID_ATTEMPTS ==> |d.ids[i]| == ID_BYTES)
    && |d.secret| == RANDOM_BYTES && |d.salt| == SALT_BYTES
  }

  function Token(secret: seq<byte>): (t: seq<byte>) {
    PREFIX + ToHex(secret)
  }

  function FirstInactive(rs: seq<Record>): (k: nat)
    ensures k <= |rs| && (k < |rs| ==> rs[k].active == 0)
    ensures forall i :: 0 <= i < k ==> rs[i].active != 0
  {
    if rs == [] || rs[0].active == 0 then 0 else 1 + FirstInactive(rs[1..])
  }

  predicate NameTaken(rs: seq<Record>, name: seq<byte>) {
    exists i :: 0 <= i < |rs| && rs[i].active == 1 && NameKey(rs[i]) == LowerAll(name)
  }

  predicate IdUsable(rs: seq<Record>, id: seq<byte>) {
    id != Zeros(ID_BYTES) && forall i :: 0 <= i < |rs| ==> rs[i].active == 1 ==> rs[i].id != id
  }

  /** The first of the drawn identifiers that can be used. */
  function PickId(rs: seq<Record>, ids: seq<seq<byte>>): (r: Option<seq<byte>>)
    ensures r.Some? ==> r.value in ids && IdUsable(rs, r.value)
  {
    if ids == [] then None else if IdUsable(rs, ids[0]) then Some(ids[0]) else PickId(rs, ids[1..])
  }

  function Verifier(h: Hash, salt: seq<byte>, token: seq<byte>): (v: seq<byte>) {
    h(DOMAIN + salt + token)
  }

  const DOMAIN: seq<byte> := [69, 83, 80, 51, 50, 45, 78, 85, 84, 32, 65, 80, 73, 32, 116, 111, 107, 101, 110, 32, 118,
                              101, 114, 105, 102, 105, 101, 114, 32, 118, 49]

  function NewRecord(c: Config, h: Hash, name: seq<byte>, issuedAt: int, id: seq<byte>, d: Draw): (r: Record)
    requires |name| <= NAME_MAX && |d.secret| == RANDOM_BYTES
  {
    var token := Token(d.secret);
    Record(issuedAt, c.scope, 1, id, d.salt, Verifier(h, d.salt, token),
           name + Zeros(NAME_MAX + 1 - |name|), token[TOKEN_LENGTH - 4..] + [0])
  }

  /** The result of a creation: the token, handed out once, and the new record. */
  datatype Created = Created(token: seq<byte>, record: Record)

  function Create(c: Config, h: Hash, nvs: Option<Blob>, name: seq<byte>, issuedAt: int, d: Draw)
    : (r: (Option<Blob>, Result<Created>))
    requires DrawOk(d)
  {
    if !NameValid(name) || issuedAt < VALID_EPOCH then (nvs, Err(InvalidArgument))
    else
      match Load(c, nvs)
      case Err(e) => (nvs, Err(e))
      case Ok(rs) =>
        var k := FirstInactive(rs);
        if NameTaken(rs, name) then (nvs, Err(InvalidState))
        else if k == |rs| then (nvs, Err(NoMemory))
        else
          match PickId(rs, d.ids)
          case None => (nvs, Err(Failed))
          case Some(id) =>
            if !d.hashOk || |Verifier(h, d.salt, Token(d.secret))| != VERIFIER_BYTES then (nvs, Err(Failed))
            else if issuedAt >= YEAR_10000 then (nvs, Err(InvalidState))
            else
              var r := NewRecord(c, h, name, issuedAt, id, d);
              (Written(c, nvs, rs[k := r], d.save),
               if d.save.Saved? then Ok(Created(Token(d.secret), r)) else Err(Failed))
  }

  /** The place of the active record with this identifier, or the length. */
  function Position(rs: seq<Record>, id: seq<byte>): (k: nat)
    ensures k <= |rs| && (k < |rs| ==> rs[k].active == 1 && rs[k].id == id)
    ensures forall i :: 0 <= i < k ==> !(rs[i].active == 1 && rs[i].id == id)
  {
    if rs == [] || (rs[0].active == 1 && rs[0].id == id) then 0 else 1 + Position(rs[1..], id)
  }

  /** Later records move up, the freed last place is wiped. */
  function Shifted(rs: seq<Record>, k: nat): (r: seq<Record>)
    requires k < |rs|
    ensures |r| == |rs|
  {
    rs[..k] + rs[k + 1..] + [BLANK]
  }

  function Delete(c: Config, nvs: Option<Blob>, hex: seq<byte>, save: Save): (r: (Option<Blob>, Result<()>)) {
    if |hex| != 2 * ID_BYTES || FromHex(hex).None? then (nvs, Err(InvalidArgument))
    else
      match Load(c, nvs)
      case Err(e) => (nvs, Err(e))
      case Ok(rs) =>
        var k := Position(rs, FromHex(hex).value);
        if k == |rs| then (nvs, Err(NotFound))
        else (Written(c, nvs, Shifted(rs, k), save), if save.Saved? then Ok(()) else Err(Failed))
  }

  predicate TokenWellFormed(token: seq<byte>) {
    |token| == TOKEN_LENGTH && PREFIX <= token && forall i :: |PREFIX| <= i < TOKEN_LENGTH ==> LowerHexValue(token[i]) >= 0
  }

  predicate Matches(h: Hash, r: Record, token: seq<byte>, required: Scopes) {
    r.active == 1 && required <= r.scopes && Verifier(h, r.salt, token) == r.verifier
  }

  /** With a hash library that does its work. */
  predicate Authorized(c: Config, h: Hash, nvs: Option<Blob>, token: seq<byte>, required: Scopes) {
    && TokenWellFormed(token) && required != {} && required - c.scope == {}
    && Load(c, nvs).Ok?
    && (forall i :: 0 <= i < c.count ==> |Verifier(h, Load(c, nvs).value[i].salt, token)| == VERIFIER_BYTES)
    && exists i :: 0 <= i < c.count && Matches(h, Load(c, nvs).value[i], token, required)
  }

  // ---------------------------------------------------------------- the store is a bounded sequence

  /** Active records first, everything behind them blank. */
  predicate Packed(rs: seq<Record>) {
    forall i :: FirstInactive(rs) <= i < |rs| ==> rs[i] == BLANK
  }

  predicate StoreOk(c: Config, nvs: Option<Blob>) {
    Load(c, nvs).Ok? && Packed(Load(c, nvs).value)
  }

  /** The tokens a store holds, oldest first. */
  function Tokens(c: Config, nvs: Option<Blob>): (ts: seq<Record>)
    requires StoreOk(c, nvs)
  {
    var rs := Load(c, nvs).value;
    rs[..FirstInactive(rs)]
  }

  lemma {:induction false} FirstInactiveIs(rs: seq<Record>, k: nat)
    requires k <= |rs| && (k < |rs| ==> rs[k].active == 0) && forall i :: 0 <= i < k ==> rs[i].active != 0
    ensures FirstInactive(rs) == k
  {
    var f := FirstInactive(rs);
    assert f < |rs| ==> rs[f].active == 0;
  }

  lemma {:induction false} PositionIs(rs: seq<Record>, id: seq<byte>, k: nat)
    requires k < |rs| && rs[k].active == 1 && rs[k].id == id
    requires forall i :: 0 <= i < k ==> !(rs[i].active == 1 && rs[i].id == id)
    ensures Position(rs, id) == k
  {
    var f := Position(rs, id);
    assert f < |rs| ==> rs[f].active == 1 && rs[f].id == id;
  }

  lemma {:induction false} PositionNone(rs: seq<Record>, id: seq<byte>)
    requires forall i :: 0 <= i < |rs| ==> !(rs[i].active == 1 && rs[i].id == id)
    ensures Position(rs, id) == |rs|
  {
    var f := Position(rs, id);
  }

  /** An erased store is accepted and empty. */
  lemma {:induction false} ErasedStore(c: Config)
    ensures StoreOk(c, None) && Tokens(c, None) == []
  {
    var rs := Load(c, None).value;
    if c.count > 0 {
      FirstInactiveIs(rs, 0);
    }
  }

  lemma {:induction false} HexDigits(s: seq<byte>, i: nat)
    requires i < 2 * |s|
    ensures LowerHexValue(ToHex(s)[i]) >= 0
    decreases s
  {
    if i >= 2 {
      HexDigits(s[1..], i - 2);
    }
  }

  lemma {:induction false} TokenIsWellFormed(secret: seq<byte>)
    requires |secret| == RANDOM_BYTES
    ensures TokenWellFormed(Token(secret))
  {
    forall i | |PREFIX| <= i < TOKEN_LENGTH ensures LowerHexValue(Token(secret)[i]) >= 0 {
      HexDigits(secret, i - |PREFIX|);
    }
  }

  lemma {:induction false} AllDigitsRead(h: seq<byte>)
    requires |h| % 2 == 0 && forall i :: 0 <= i < |h| ==> LowerHexValue(h[i]) >= 0
    ensures FromHex(h).Some?
    decreases h
  {
    if h != [] {
      AllDigitsRead(h[2..]);
    }
  }

  /** A text has the form of a token exactly when it is esp32nut_v1_ and the digits of some 32-byte secret. */
  lemma {:induction false} TokenFormIff(token: seq<byte>)
    ensures TokenWellFormed(token) <==>
            exists secret: seq<byte> :: |secret| == 32 && token == [101, 115, 112, 51, 50, 110, 117, 116, 95, 118, 49, 95] + ToHex(secret)
  {
    hide ToHex, FromHex, LowerHexValue;
    if TokenWellFormed(token) {
      var digits := token[|PREFIX|..];
      AllDigitsRead(digits);
      HexInjective(digits);
      assert token == PREFIX + ToHex(FromHex(digits).value);
    }
    if secret: seq<byte> :| |secret| == 32 && token == PREFIX + ToHex(secret) {
      TokenIsWellFormed(secret);
    }
  }

  /** A new record passes the check the next load will make. */
  lemma {:induction false} NewRecordValid(c: Config, h: Hash, name: seq<byte>, issuedAt: int, id: seq<byte>, d: Draw)
    requires NameValid(name) && issuedAt >= VALID_EPOCH && DrawOk(d) && |id| == ID_BYTES && id != Zeros(ID_BYTES)
    requires |Verifier(h, d.salt, Token(d.secret))| == VERIFIER_BYTES
    ensures RecordValid(c, NewRecord(c, h, name, issuedAt, id, d))
    ensures NameKey(NewRecord(c, h, name, issuedAt, id, d)) == LowerAll(name)
  {
    CStrPadded(name, NAME_MAX + 1 - |name|);
    TokenIsWellFormed(d.secret);
  }

  lemma {:induction false} BlankFits(c: Config, r: Record)
    ensures RecordValid(c, BLANK) && !Clash(r, BLANK) && !Clash(BLANK, r)
  {
  }

  lemma {:induction false} AppendKeepsValid(c: Config, rs: seq<Record>, k: nat, r: Record)
    requires RecordsValid(c, rs) && Packed(rs) && k == FirstInactive(rs) < |rs|
    requires RecordValid(c, r) && r.active == 1
    requires IdUsable(rs, r.id) && forall i :: 0 <= i < |rs| ==> rs[i].active == 1 ==> NameKey(rs[i]) != NameKey(r)
    ensures RecordsValid(c, rs[k := r]) && Packed(rs[k := r]) && FirstInactive(rs[k := r]) == k + 1
  {
    hide RecordValid, NameKey;
    FirstInactiveIs(rs[k := r], k + 1);
  }

  lemma {:induction false} ShiftedAt(rs: seq<Record>, k: nat, i: nat)
    requires k < |rs| && i < |rs|
    ensures Shifted(rs, k)[i] == if i < k then rs[i] else if i + 1 < |rs| then rs[i + 1] else BLANK
  {
  }

  lemma {:induction false} ShiftKeepsValid(c: Config, rs: seq<Record>, k: nat)
    requires RecordsValid(c, rs) && k < |rs|
    ensures RecordsValid(c, Shifted(rs, k))
  {
    hide RecordValid, Clash, Shifted;
    var out := Shifted(rs, k);
    forall i | 0 <= i < |out| ensures RecordValid(c, out[i]) {
      ShiftedAt(rs, k, i);
      BlankFits(c, BLANK);
    }
    forall i, j | 0 <= i < j < |out| ensures !Clash(out[i], out[j]) {
      ShiftedAt(rs, k, i);
      ShiftedAt(rs, k, j);
      BlankFits(c, out[i]);
    }
  }

  lemma {:induction false} ShiftKeepsPacked(rs: seq<Record>, k: nat)
    requires Packed(rs) && k < FirstInactive(rs)
    ensures Packed(Shifted(rs, k)) && FirstInactive(Shifted(rs, k)) == FirstInactive(rs) - 1
    ensures Shifted(rs, k)[..FirstInactive(rs) - 1] == rs[..FirstInactive(rs)][..k] + rs[..FirstInactive(rs)][k + 1..]
  {
    hide FirstInactive;
    var f := FirstInactive(rs);
    var out := Shifted(rs, k);
    forall i | 0 <= i < |out|
      ensures out[i] == if i < k then rs[i] else if i + 1 < |rs| then rs[i + 1] else BLANK
    {
      ShiftedAt(rs, k, i);
    }
    FirstInactiveIs(out, f - 1);
    assert forall i :: f - 1 <= i < |out| ==> out[i] == BLANK;
    var left := rs[..f][..k] + rs[..f][k + 1..];
    assert |left| == f - 1 && forall i :: 0 <= i < f - 1 ==> left[i] == rs[if i < k then i else i + 1];
    assert out[..f - 1] == left;
  }

  lemma {:induction false} LoadBack(c: Config, nvs: Option<Blob>, rs: seq<Record>, save: Save)
    requires |rs| == c.count && RecordsValid(c, rs) && !save.NotWritten?
    ensures Load(c, Written(c, nvs, rs, save)) == Ok(rs)
  {
  }

  lemma {:induction false} LoadValid(c: Config, nvs: Option<Blob>)
    requires Load(c, nvs).Ok?
    ensures |Load(c, nvs).value| == c.count && RecordsValid(c, Load(c, nvs).value)
  {
    if nvs.None? {
      BlankFits(c, BLANK);
    }
  }

  /** The record holds what a creation was given and drew: its salt, and the hash of salt and token. */
  predicate MadeBy(h: Hash, name: seq<byte>, issuedAt: int, d: Draw, r: Record) {
    && CStr(r.name) == name && r.issuedAt == issuedAt && r.id in d.ids
    && r.salt == d.salt && r.verifier == h(DOMAIN + d.salt + (PREFIX + ToHex(d.secret)))
  }

  lemma {:induction false} NewRecordMade(c: Config, h: Hash, name: seq<byte>, issuedAt: int, id: seq<byte>, d: Draw)
    requires NameValid(name) && DrawOk(d) && id in d.ids
    ensures MadeBy(h, name, issuedAt, d, NewRecord(c, h, name, issuedAt, id, d))
  {
    hide ToHex, CStr, Zeros;
    assert NulFree(name);
    CStrPadded(name, NAME_MAX + 1 - |name|);
  }

  /** Creating either leaves the store as it was or appends exactly the new record. */
  lemma {:induction false} CreateAppends(c: Config, h: Hash, nvs: Option<Blob>, name: seq<byte>, issuedAt: int, d: Draw)
    requires StoreOk(c, nvs) && DrawOk(d)
    ensures var (n, r) := Create(c, h, nvs, name, issuedAt, d);
            && StoreOk(c, n)
            && (r.Ok? ==> |Tokens(c, nvs)| < c.count && Tokens(c, n) == Tokens(c, nvs) + [r.value.record])
            && (Tokens(c, n) == Tokens(c, nvs) ||
                exists made :: MadeBy(h, name, issuedAt, d, made) && Tokens(c, n) == Tokens(c, nvs) + [made])
  {
    hide FirstInactive, RecordsValid, NameKey, Packed, PickId, RecordValid, MadeBy;
    var (n, r) := Create(c, h, nvs, name, issuedAt, d);
    LoadValid(c, nvs);
    var rs := Load(c, nvs).value;
    var k := FirstInactive(rs);
    if r.Ok? || n != nvs {
      var id := PickId(rs, d.ids).value;
      var record := NewRecord(c, h, name, issuedAt, id, d);
      NewRecordValid(c, h, name, issuedAt, id, d);
      NewRecordMade(c, h, name, issuedAt, id, d);
      hide Load, Written, NewRecord;
      AppendKeepsValid(c, rs, k, record);
      LoadBack(c, nvs, rs[k := record], d.save);
      assert n == Written(c, nvs, rs[k := record], d.save);
      assert rs[k := record][..k + 1] == rs[..k] + [record];
    }
  }

  lemma {:induction false} DeleteAt(c: Config, nvs: Option<Blob>, k: nat, save: Save)
    requires StoreOk(c, nvs) && k < |Tokens(c, nvs)| && !save.NotWritten?
    ensures var ts := Tokens(c, nvs); var n := Written(c, nvs, Shifted(Load(c, nvs).value, k), save);
            StoreOk(c, n) && Tokens(c, n) == ts[..k] + ts[k + 1..]
  {
    LoadValid(c, nvs);
    var rs := Load(c, nvs).value;
    hide Load, Written, RecordsValid, FirstInactive, Shifted, Packed;
    ShiftKeepsValid(c, rs, k);
    ShiftKeepsPacked(rs, k);
    LoadBack(c, nvs, Shifted(rs, k), save);
  }

  /** Deleting by a listed identifier takes out exactly that record and keeps the order of the others. */
  lemma {:induction false} DeleteRemoves(c: Config, nvs: Option<Blob>, hex: seq<byte>, save: Save)
    requires StoreOk(c, nvs)
    ensures var (n, r) := Delete(c, nvs, hex, save);
            && StoreOk(c, n)
            && (n == nvs || exists k :: Without(c, nvs, hex, k, n))
            && (r.Ok? ==> exists k :: Without(c, nvs, hex, k, n))
            && (r == Err(NotFound) ==> forall k :: 0 <= k < |Tokens(c, nvs)| ==> ToHex(Tokens(c, nvs)[k].id) != hex)
  {
    hide Load, RecordsValid, FromHex, ToHex, FirstInactive, Position, Packed;
    var (n, r) := Delete(c, nvs, hex, save);
    var rs, ts := Load(c, nvs).value, Tokens(c, nvs);
    if |hex| == 2 * ID_BYTES && FromHex(hex).Some? {
      var id := FromHex(hex).value;
      HexInjective(hex);
      var k := Position(rs, id);
      if k == |rs| {
        forall i | 0 <= i < |ts| ensures ToHex(ts[i].id) != hex {
          ActivePrefix(c, nvs, i);
          HexRoundTrip(ts[i].id);
        }
      } else if !save.NotWritten? {
        ActiveIsListed(c, nvs, k);
        DeleteAt(c, nvs, k, save);
        assert Without(c, nvs, hex, k, n);
      }
    }
  }

  /** The store n holds the tokens of nvs without the k-th, which was listed under hex. */
  ghost predicate Without(c: Config, nvs: Option<Blob>, hex: seq<byte>, k: nat, n: Option<Blob>)
    requires StoreOk(c, nvs) && StoreOk(c, n)
  {
    var ts := Tokens(c, nvs);
    k < |ts| && ToHex(ts[k].id) == hex && Tokens(c, n) == ts[..k] + ts[k + 1..]
  }

  lemma {:induction false} ActivePrefix(c: Config, nvs: Option<Blob>, i: nat)
    requires StoreOk(c, nvs) && i < |Tokens(c, nvs)|
    ensures i < |Load(c, nvs).value| && Load(c, nvs).value[i] == Tokens(c, nvs)[i] && Tokens(c, nvs)[i].active == 1
  {
    LoadValid(c, nvs);
    assert RecordValid(c, Load(c, nvs).value[i]);
  }

  lemma {:induction false} ActiveIsListed(c: Config, nvs: Option<Blob>, k: nat)
    requires StoreOk(c, nvs) && k < |Load(c, nvs).value| && Load(c, nvs).value[k].active == 1
    ensures k < |Tokens(c, nvs)| && Tokens(c, nvs)[k] == Load(c, nvs).value[k]
  {
    var rs := Load(c, nvs).value;
    assert forall i :: FirstInactive(rs) <= i < |rs| ==> rs[i].active == 0;
  }

  /** Every record in a good store can be deleted by the identifier it is listed under. */
  lemma {:induction false} ListedIdDeletes(c: Config, nvs: Option<Blob>, k: nat)
    requires StoreOk(c, nvs) && k < |Tokens(c, nvs)|
    ensures var ts := Tokens(c, nvs); var (n, r) := Delete(c, nvs, ToHex(ts[k].id), Saved);
            r.Ok? && StoreOk(c, n) && Tokens(c, n) == ts[..k] + ts[k + 1..]
  {
    LoadValid(c, nvs);
    var rs, ts := Load(c, nvs).value, Tokens(c, nvs);
    var id := ts[k].id;
    ActivePrefix(c, nvs, k);
    assert RecordValid(c, rs[k]);
    HexRoundTrip(id);
    forall i | 0 <= i < k ensures !(rs[i].active == 1 && rs[i].id == id) {
      assert !Clash(rs[i], rs[k]);
    }
    PositionIs(rs, id, k);
    hide Load, RecordsValid, RecordValid, ToHex, FromHex, FirstInactive, Position, Packed;
    DeleteAt(c, nvs, k, Saved);
  }

  /** Identifiers and case-folded names are unique in a good store. */
  lemma {:induction false} TokensUnique(c: Config, nvs: Option<Blob>, i: nat, j: nat)
    requires StoreOk(c, nvs) && i < j < |Tokens(c, nvs)|
    ensures var ts := Tokens(c, nvs); ts[i].id != ts[j].id && NameKey(ts[i]) != NameKey(ts[j])
  {
    var rs := Load(c, nvs).value;
    assert RecordValid(c, rs[i]) && RecordValid(c, rs[j]) && !Clash(rs[i], rs[j]);
  }

  // ---------------------------------------------------------------- runs

  datatype Op =
    | CreateOp(name: seq<byte>, issuedAt: int, draw: Draw)
    | DeleteOp(hex: seq<byte>, save: Save)

  predicate OpOk(op: Op) {
    op.CreateOp? ==> DrawOk(op.draw)
  }

  function Apply(c: Config, h: Hash, nvs: Option<Blob>, op: Op): (n: Option<Blob>)
    requires OpOk(op)
  {
    match op
    case CreateOp(name, issuedAt, draw) => Create(c, h, nvs, name, issuedAt, draw).0
    case DeleteOp(hex, save) => Delete(c, nvs, hex, save).0
  }

  function Run(c: Config, h: Hash, nvs: Option<Blob>, ops: seq<Op>): (n: Option<Blob>)
    requires forall i :: 0 <= i < |ops| ==> OpOk(ops[i])
    decreases ops
  {
    if ops == [] then nvs else Run(c, h, Apply(c, h, nvs, ops[0]), ops[1..])
  }

  lemma {:induction false} ApplyOk(c: Config, h: Hash, nvs: Option<Blob>, op: Op)
    requires OpOk(op) && StoreOk(c, nvs)
    ensures StoreOk(c, Apply(c, h, nvs, op))
  {
    match op
    case CreateOp(name, issuedAt, draw) => CreateAppends(c, h, nvs, name, issuedAt, draw);
    case DeleteOp(hex, save) => DeleteRemoves(c, nvs, hex, save);
  }

  /** Every store any run from an erased device leaves behind is accepted by the next load. */
  lemma {:induction false} RunOk(c: Config, h: Hash, nvs: Option<Blob>, ops: seq<Op>)
    requires StoreOk(c, nvs) && forall i :: 0 <= i < |ops| ==> OpOk(ops[i])
    ensures StoreOk(c, Run(c, h, nvs, ops)) && |Tokens(c, Run(c, h, nvs, ops))| <= c.count
    decreases ops
  {
    if ops != [] {
      ApplyOk(c, h, nvs, ops[0]);
      RunOk(c, h, Apply(c, h, nvs, ops[0]), ops[1..]);
    }
  }

  /** A stored blob of another layout, or with records no creation leaves behind. */
  predicate Foreign(c: Config, b: Blob) {
    || |b.records| != c.count || b.version != c.version || b.recordSize != 112
    || (exists i :: 0 <= i < |b.records| && ForeignRecord(c, b.records[i]))
    || (exists i, j :: 0 <= i < j < |b.records| && Twins(b.records[i], b.records[j]))
  }

  predicate ForeignRecord(c: Config, r: Record) {
    r.active > 1 || (r.active == 1 && (r.id == Zeros(8) || r.scopes != c.scope || r.issuedAt < 1704067200 || CStr(r.name) == []))
  }

  predicate Twins(r: Record, s: Record) {
    r.active == 1 && s.active == 1 && (r.id == s.id || LowerAll(CStr(r.name)) == LowerAll(CStr(s.name)))
  }

  /** Such a blob is left as it is by every operation and lets nobody in. */
  lemma {:induction false} ForeignStoreIsInert(c: Config, h: Hash, b: Blob, op: Op, token: seq<byte>, required: Scopes)
    requires Foreign(c, b) && OpOk(op)
    ensures Apply(c, h, Some(b), op) == Some(b) && !Authorized(c, h, Some(b), token, required)
  {
    hide CStr, LowerAll, Zeros;
    if i :| 0 <= i < |b.records| && ForeignRecord(c, b.records[i]) {
      assert !RecordValid(c, b.records[i]);
    }
    if i, j :| 0 <= i < j < |b.records| && Twins(b.records[i], b.records[j]) {
      assert Clash(b.records[i], b.records[j]);
    }
    assert Load(c, Some(b)).Err?;
  }

  lemma {:induction false} SurvivesDelete(c: Config, nvs: Option<Blob>, hex: seq<byte>, save: Save, r: Record)
    requires StoreOk(c, nvs) && r in Tokens(c, nvs) && hex != ToHex(r.id)
    ensures var n := Delete(c, nvs, hex, save).0;
            StoreOk(c, n) && r in Tokens(c, n)
  {
    hide Delete, Tokens, StoreOk, ToHex;
    DeleteRemoves(c, nvs, hex, save);
    var n, ts := Delete(c, nvs, hex, save).0, Tokens(c, nvs);
    if n != nvs {
      var k :| Without(c, nvs, hex, k, n);
      var i :| 0 <= i < |ts| && ts[i] == r;
      assert i != k;
      assert Tokens(c, n)[if i < k then i else i - 1] == r;
    }
  }

  lemma {:induction false} SurvivesCreate(c: Config, h: Hash, nvs: Option<Blob>, name: seq<byte>, issuedAt: int, d: Draw, r: Record)
    requires StoreOk(c, nvs) && r in Tokens(c, nvs) && DrawOk(d)
    ensures var n := Create(c, h, nvs, name, issuedAt, d).0;
            StoreOk(c, n) && r in Tokens(c, n)
  {
    hide *;
    CreateAppends(c, h, nvs, name, issuedAt, d);
  }

  lemma {:induction false} RecordSurvives(c: Config, h: Hash, nvs: Option<Blob>, op: Op, r: Record)
    requires OpOk(op) && StoreOk(c, nvs) && r in Tokens(c, nvs)
    requires op.DeleteOp? ==> op.hex != ToHex(r.id)
    ensures StoreOk(c, Apply(c, h, nvs, op)) && r in Tokens(c, Apply(c, h, nvs, op))
  {
    hide Create, Delete, Tokens, StoreOk, DrawOk, ToHex;
    match op
    case CreateOp(name, issuedAt, draw) => SurvivesCreate(c, h, nvs, name, issuedAt, draw, r);
    case DeleteOp(hex, save) => SurvivesDelete(c, nvs, hex, save, r);
  }

  lemma {:induction false} RecordSurvivesRun(c: Config, h: Hash, nvs: Option<Blob>, ops: seq<Op>, r: Record)
    requires StoreOk(c, nvs) && r in Tokens(c, nvs) && forall i :: 0 <= i < |ops| ==> OpOk(ops[i])
    requires forall i :: 0 <= i < |ops| ==> ops[i].DeleteOp? ==> ops[i].hex != ToHex(r.id)
    ensures StoreOk(c, Run(c, h, nvs, ops)) && r in Tokens(c, Run(c, h, nvs, ops))
    decreases ops
  {
    if ops != [] {
      RecordSurvives(c, h, nvs, ops[0], r);
      RecordSurvivesRun(c, h, Apply(c, h, nvs, ops[0]), ops[1..], r);
    }
  }

  /** In terms of the list: what a creation needs, and the record it makes. */
  lemma {:induction false} CreateSucceedsIff(c: Config, h: Hash, nvs: Option<Blob>, name: seq<byte>, issuedAt: int, d: Draw)
    requires StoreOk(c, nvs) && DrawOk(d)
    ensures var ts := Tokens(c, nvs);
            Create(c, h, nvs, name, issuedAt, d).1.Ok? <==>
            && NameValid(name) && 1704067200 <= issuedAt < 253402300800
            && |ts| < c.count && FreeName(ts, name) && (exists id :: id in d.ids && FreeId(ts, id))
            && d.hashOk && |Verifier(h, d.salt, Token(d.secret))| == VERIFIER_BYTES && d.save.Saved?
  {
    hide RecordsValid, Verifier, NameValid, NameKey, Token, NewRecord;
    LoadValid(c, nvs);
    ActiveFlags(c, Load(c, nvs).value);
    var rs, ts := Load(c, nvs).value, Tokens(c, nvs);
    ListedNames(rs, name);
    forall id | id in d.ids ensures IdUsable(rs, id) <==> FreeId(ts, id) {
      ListedIds(rs, id);
    }
    PickIdIff(rs, d.ids);
  }

  /** Why a creation fails, in terms of the list. */
  lemma {:induction false} CreateErrors(c: Config, h: Hash, nvs: Option<Blob>, name: seq<byte>, issuedAt: int, d: Draw)
    requires StoreOk(c, nvs) && DrawOk(d)
    ensures var r, ts := Create(c, h, nvs, name, issuedAt, d), Tokens(c, nvs);
            && (r.1 == Err(InvalidArgument) <==> !NameValid(name) || issuedAt < 1704067200)
            && (r.1 == Err(NoMemory) <==>
                NameValid(name) && issuedAt >= 1704067200 && FreeName(ts, name) && |ts| == c.count)
            && (NameValid(name) && issuedAt >= 1704067200 && !FreeName(ts, name) ==> r == (nvs, Err(InvalidState)))
            && (r.1.Err? && !d.save.CommitFailed? ==> r.0 == nvs)
  {
    hide RecordsValid, Verifier, NameValid, NameKey, Token, NewRecord, PickId;
    LoadValid(c, nvs);
    ActiveFlags(c, Load(c, nvs).value);
    ListedNames(Load(c, nvs).value, name);
  }

  lemma {:induction false} ActiveFlags(c: Config, rs: seq<Record>)
    requires RecordsValid(c, rs)
    ensures forall i :: 0 <= i < |rs| ==> rs[i].active == 0 || rs[i].active == 1
    ensures forall i :: 0 <= i < |rs| && rs[i].active == 1 ==> rs[i].scopes == c.scope
  {
  }

  predicate FreeName(ts: seq<Record>, name: seq<byte>) {
    forall i :: 0 <= i < |ts| ==> NameKey(ts[i]) != LowerAll(name)
  }

  predicate FreeId(ts: seq<Record>, id: seq<byte>) {
    id != Zeros(ID_BYTES) && forall i :: 0 <= i < |ts| ==> ts[i].id != id
  }

  lemma {:induction false} ListedNames(rs: seq<Record>, name: seq<byte>)
    requires Packed(rs) && forall i :: 0 <= i < |rs| ==> rs[i].active == 0 || rs[i].active == 1
    ensures NameTaken(rs, name) <==> !FreeName(rs[..FirstInactive(rs)], name)
  {
    hide NameKey;
    var ts := rs[..FirstInactive(rs)];
    assert forall i :: 0 <= i < |ts| ==> ts[i] == rs[i] && rs[i].active == 1;
  }

  lemma {:induction false} ListedIds(rs: seq<Record>, id: seq<byte>)
    requires Packed(rs) && forall i :: 0 <= i < |rs| ==> rs[i].active == 0 || rs[i].active == 1
    ensures IdUsable(rs, id) <==> FreeId(rs[..FirstInactive(rs)], id)
  {
    var ts := rs[..FirstInactive(rs)];
    assert forall i :: 0 <= i < |ts| ==> ts[i] == rs[i] && rs[i].active == 1;
  }

  lemma {:induction false} PickIdIff(rs: seq<Record>, ids: seq<seq<byte>>)
    ensures PickId(rs, ids).Some? <==> exists id :: id in ids && IdUsable(rs, id)
    decreases ids
  {
    hide IdUsable;
    if ids != [] {
      PickIdIff(rs, ids[1..]);
      assert forall id :: id in ids <==> id == ids[0] || id in ids[1..];
    }
  }

  lemma {:induction false} CreatedRecord(c: Config, h: Hash, nvs: Option<Blob>, name: seq<byte>, issuedAt: int, d: Draw)
    requires DrawOk(d) && Create(c, h, nvs, name, issuedAt, d).1.Ok?
    ensures var made := Create(c, h, nvs, name, issuedAt, d).1.value;
            var r := made.record;
            && CStr(r.name) == name && r.issuedAt == issuedAt && r.scopes == c.scope && r.id in d.ids
            && made.token == PREFIX + ToHex(d.secret) && FromHex(made.token[|PREFIX|..]) == Some(d.secret)
            && r.salt == d.salt && r.verifier == h(DOMAIN + d.salt + made.token)
            && CStr(r.finalFour) == made.token[TOKEN_LENGTH - 4..]
  {
    hide RecordsValid, NameKey, FromHex, ToHex;
    var r := Create(c, h, nvs, name, issuedAt, d).1.value.record;
    assert NulFree(name);
    CStrPadded(name, NAME_MAX + 1 - |name|);
    HexRoundTrip(d.secret);
    assert Token(d.secret)[|PREFIX|..] == ToHex(d.secret);
    var four := Token(d.secret)[TOKEN_LENGTH - 4..];
    assert four == ToHex(d.secret)[60..];
    forall i | 0 <= i < 4 ensures four[i] != 0 {
      HexDigits(d.secret, 60 + i);
      assert four[i] == ToHex(d.secret)[60 + i];
    }
    CStrPadded(four, 1);
    assert four + Zeros(1) == four + [0];
  }

  /** A token is let in exactly when some listed record has its verifier; scopes are the store's. */
  lemma {:induction false} AuthorizedIffListed(c: Config, h: Hash, nvs: Option<Blob>, token: seq<byte>, required: Scopes)
    requires StoreOk(c, nvs) && forall s :: |h(s)| == VERIFIER_BYTES
    ensures Authorized(c, h, nvs, token, required) <==>
            && TokenWellFormed(token) && required != {} && required <= c.scope
            && exists i :: 0 <= i < |Tokens(c, nvs)| && Known(h, Tokens(c, nvs)[i], token)
  {
    hide TokenWellFormed, Load, Tokens, Packed, RecordsValid;
    LoadValid(c, nvs);
    ActiveFlags(c, Load(c, nvs).value);
    var rs, ts := Load(c, nvs).value, Tokens(c, nvs);
    if i :| 0 <= i < |ts| && Known(h, ts[i], token) {
      ActivePrefix(c, nvs, i);
      assert required <= c.scope ==> Matches(h, rs[i], token, required);
    }
    if i :| 0 <= i < c.count && Matches(h, rs[i], token, required) {
      ActiveIsListed(c, nvs, i);
      assert Known(h, ts[i], token);
    }
  }

  lemma {:induction false} ListedIsMade(c: Config, h: Hash, nvs: Option<Blob>, ops: seq<Op>, r: Record) returns (k: nat)
    requires StoreOk(c, nvs) && forall i :: 0 <= i < |ops| ==> OpOk(ops[i])
    requires StoreOk(c, Run(c, h, nvs, ops)) && r in Tokens(c, Run(c, h, nvs, ops)) && r !in Tokens(c, nvs)
    ensures k < |ops| && ops[k].CreateOp? && MadeBy(h, ops[k].name, ops[k].issuedAt, ops[k].draw, r)
    decreases ops
  {
    hide StoreOk, Tokens, Apply, MadeBy, OpOk;
    var n := Apply(c, h, nvs, ops[0]);
    ApplyOk(c, h, nvs, ops[0]);
    if r in Tokens(c, n) {
      FirstListed(c, h, nvs, ops[0], r);
      k := 0;
    } else {
      k := ListedIsMade(c, h, n, ops[1..], r);
      k := k + 1;
    }
  }

  lemma {:induction false} FirstListed(c: Config, h: Hash, nvs: Option<Blob>, op: Op, r: Record)
    requires OpOk(op) && StoreOk(c, nvs) && StoreOk(c, Apply(c, h, nvs, op))
    requires r in Tokens(c, Apply(c, h, nvs, op)) && r !in Tokens(c, nvs)
    ensures op.CreateOp? && MadeBy(h, op.name, op.issuedAt, op.draw, r)
  {
    hide StoreOk, Tokens, MadeBy, Create, Delete, DrawOk, ToHex;
    match op
    case CreateOp(name, issuedAt, draw) => CreateAppends(c, h, nvs, name, issuedAt, draw);
    case DeleteOp(hex, save) => DeleteAddsNothing(c, nvs, hex, save, r);
  }

  lemma {:induction false} DeleteAddsNothing(c: Config, nvs: Option<Blob>, hex: seq<byte>, save: Save, r: Record)
    requires StoreOk(c, nvs)
    ensures var n := Delete(c, nvs, hex, save).0; StoreOk(c, n) && (r in Tokens(c, n) ==> r in Tokens(c, nvs))
  {
    hide StoreOk, Tokens, Delete, ToHex;
    DeleteRemoves(c, nvs, hex, save);
    var n, ts := Delete(c, nvs, hex, save).0, Tokens(c, nvs);
    if n != nvs {
      var k: nat :| Without(c, nvs, hex, k, n);
      assert forall x :: x in ts[..k] + ts[k + 1..] ==> x in ts;
    }
  }

  /**
   In every run from an erased store, whoever is let in holds the very token that some creation of
   the run made a still listed record for, or else a different text that hashes, behind that
   record's salt, to the same value: a collision of these two inputs.
   */
  lemma {:induction false} LetInHoldsTokenOrCollision(c: Config, h: Hash, ops: seq<Op>, token: seq<byte>, required: Scopes)
    returns (k: nat, i: nat)
    requires forall j :: 0 <= j < |ops| ==> OpOk(ops[j])
    requires Authorized(c, h, Run(c, h, None, ops), token, required)
    ensures StoreOk(c, Run(c, h, None, ops)) && i < |Tokens(c, Run(c, h, None, ops))|
    ensures k < |ops| && ops[k].CreateOp? && |ops[k].draw.salt| == 16 && |ops[k].draw.secret| == 32
    ensures var d, listed := ops[k].draw, Tokens(c, Run(c, h, None, ops))[i];
            var made := PREFIX + ToHex(d.secret);
            && MadeBy(h, ops[k].name, ops[k].issuedAt, d, listed)
            && (token != made ==> h(DOMAIN + d.salt + token) == h(DOMAIN + d.salt + made))
  {
    hide StoreOk, Tokens, Run, MadeBy, Load, TokenWellFormed;
    ErasedStore(c);
    RunOk(c, h, None, ops);
    var end := Run(c, h, None, ops);
    LoadValid(c, end);
    i :| i < c.count && Matches(h, Load(c, end).value[i], token, required);
    LoadedIsListed(c, end, i);
    k := ListedIsMade(c, h, None, ops, Tokens(c, end)[i]);
    MadeSalt(h, ops[k].name, ops[k].issuedAt, ops[k].draw, Tokens(c, end)[i]);
  }

  lemma {:induction false} LoadedIsListed(c: Config, nvs: Option<Blob>, k: nat)
    requires StoreOk(c, nvs) && k < c.count
    ensures |Load(c, nvs).value| == c.count
    ensures Load(c, nvs).value[k].active == 1 ==> k < |Tokens(c, nvs)| && Tokens(c, nvs)[k] == Load(c, nvs).value[k]
  {
    hide StoreOk, Tokens, Load;
    assert Load(c, nvs).Ok? by {
      Loads(c, nvs);
    }
    LoadValid(c, nvs);
    if Load(c, nvs).value[k].active == 1 {
      ActiveIsListed(c, nvs, k);
    }
  }

  lemma {:induction false} Loads(c: Config, nvs: Option<Blob>)
    requires StoreOk(c, nvs)
    ensures Load(c, nvs).Ok?
  {
  }

  lemma {:induction false} MadeSalt(h: Hash, name: seq<byte>, issuedAt: int, d: Draw, r: Record)
    requires MadeBy(h, name, issuedAt, d, r)
    ensures r.salt == d.salt && r.verifier == h(DOMAIN + d.salt + (PREFIX + ToHex(d.secret)))
  {
  }

  /** After a successful deletion a token is let in exactly when another listed record has its verifier. */
  lemma {:induction false} AuthorizedAfterDeletionIff(c: Config, h: Hash, nvs: Option<Blob>, k: nat, token: seq<byte>, required: Scopes)
    requires StoreOk(c, nvs) && k < |Tokens(c, nvs)| && forall s :: |h(s)| == VERIFIER_BYTES
    ensures var ts := Tokens(c, nvs);
            Authorized(c, h, Delete(c, nvs, ToHex(ts[k].id), Saved).0, token, required) <==>
            && TokenWellFormed(token) && required != {} && required <= c.scope
            && exists i :: 0 <= i < |ts| && i != k && Known(h, ts[i], token)
  {
    hide Tokens, Delete, ToHex, StoreOk, Authorized, TokenWellFormed, Known;
    ListedIdDeletes(c, nvs, k);
    var ts, n := Tokens(c, nvs), Delete(c, nvs, ToHex(Tokens(c, nvs)[k].id), Saved).0;
    AuthorizedIffListed(c, h, n, token, required);
    var rest := Tokens(c, n);
    if i :| 0 <= i < |rest| && Known(h, rest[i], token) {
      assert rest[i] == ts[if i < k then i else i + 1];
    }
    if i :| 0 <= i < |ts| && i != k && Known(h, ts[i], token) {
      assert rest[if i < k then i else i - 1] == ts[i];
    }
  }

  predicate Known(h: Hash, r: Record, token: seq<byte>) {
    Verifier(h, r.salt, token) == r.verifier
  }

  /**
   A token handed out is authorized for every scope the store grants, after any run of other
   creations and deletions, until its own identifier is named in a deletion.
   */
  lemma {:induction false} TokenAuthorizedUntilDeleted(c: Config, h: Hash, nvs: Option<Blob>, name: seq<byte>, issuedAt: int, d: Draw,
                                    ops: seq<Op>, required: Scopes)
    requires StoreOk(c, nvs) && DrawOk(d) && forall i :: 0 <= i < |ops| ==> OpOk(ops[i])
    requires forall s :: |h(s)| == VERIFIER_BYTES
    requires Create(c, h, nvs, name, issuedAt, d).1.Ok?
    requires required != {} && required <= c.scope
    requires var made := Create(c, h, nvs, name, issuedAt, d).1.value;
             forall i :: 0 <= i < |ops| ==> ops[i].DeleteOp? ==> ops[i].hex != ToHex(made.record.id)
    ensures var (n, r) := Create(c, h, nvs, name, issuedAt, d);
            Authorized(c, h, Run(c, h, n, ops), r.value.token, required)
  {
    hide Load, RecordsValid, FirstInactive, Packed, Run, Token, NewRecord;
    var (n, r) := Create(c, h, nvs, name, issuedAt, d);
    var record := r.value.record;
    CreateAppends(c, h, nvs, name, issuedAt, d);
    CreatedMatches(c, h, nvs, name, issuedAt, d, required);
    hide Create;
    assert record == Tokens(c, n)[|Tokens(c, nvs)|];
    RecordSurvivesRun(c, h, n, ops, record);
    var end := Run(c, h, n, ops);
    var i :| 0 <= i < |Tokens(c, end)| && Tokens(c, end)[i] == record;
    LoadValid(c, end);
    ActivePrefix(c, end, i);
    assert Matches(h, Load(c, end).value[i], r.value.token, required);
  }

  lemma {:induction false} CreatedMatches(c: Config, h: Hash, nvs: Option<Blob>, name: seq<byte>, issuedAt: int, d: Draw, required: Scopes)
    requires DrawOk(d) && Create(c, h, nvs, name, issuedAt, d).1.Ok? && required <= c.scope
    ensures var made := Create(c, h, nvs, name, issuedAt, d).1.value;
            TokenWellFormed(made.token) && Matches(h, made.record, made.token, required)
  {
    TokenIsWellFormed(d.secret);
  }

  // ---------------------------------------------------------------- the store in memory

  /** The comparison loop over two name buffers, the left one terminated. */
  method NamesEqual(left: seq<byte>, right: seq<byte>) returns (equal: bool)
    requires Terminated(left) && (Terminated(right) || |left| <= |right|)
    ensures equal <==> LowerAll(CStr(left)) == LowerAll(CStr(right))
  {
    var index := 0;
    while left[index] != 0 && right[index] != 0
      invariant index <= StrLen(left) < |left| && index <= StrLen(right)
      invariant StrLen(right) < |right| || |left| <= |right|
      invariant forall i :: 0 <= i < index ==> Lower(left[i]) == Lower(right[i])
      decreases |left| - index
    {
      if Lower(left[index]) != Lower(right[index]) {
        BelowLength(left, index);
        BelowLength(right, index);
        assert LowerAll(CStr(left))[index] != LowerAll(CStr(right))[index];
        return false;
      }
      BelowLength(left, index);
      BelowLength(right, index);
      index := index + 1;
    }
    equal := left[index] == right[index];
    BelowLength(left, index);
    BelowLength(right, index);
  }

  /** A byte before the terminator is not NUL, and the first NUL is the terminator. */
  lemma {:induction false} BelowLength(s: seq<byte>, i: nat)
    requires i < |s| && i <= StrLen(s)
    ensures s[i] == 0 <==> i == StrLen(s)
  {
    assert i < StrLen(s) ==> s[..StrLen(s)][i] != 0;
  }

  method ClashFound(a: Record, b: Record) returns (found: bool)
    requires ShapeOk(a) && ShapeOk(b) && (a.active == 1 ==> a.name[NAME_MAX] == 0)
    ensures found <==> Clash(a, b)
  {
    if a.active != 1 || b.active != 1 {
      return false;
    }
    var same := NamesEqual(a.name, b.name);
    return same || a.id == b.id;
  }

  /** The validation loops of a load. */
  method CheckRecords(c: Config, a: array<Record>) returns (ok: bool)
    requires forall i :: 0 <= i < a.Length ==> ShapeOk(a[i])
    ensures ok <==> RecordsValid(c, a[..])
  {
    for index := 0 to a.Length
      invariant forall i :: 0 <= i < index ==> RecordValid(c, a[i])
      invariant forall i, j :: 0 <= i < index && i < j < a.Length ==> !Clash(a[i], a[j])
    {
      if !RecordValid(c, a[index]) {
        assert !RecordValid(c, a[..][index]);
        return false;
      }
      for other := index + 1 to a.Length
        invariant forall j :: index < j < other ==> !Clash(a[index], a[j])
      {
        var found := ClashFound(a[index], a[other]);
        if found {
          assert Clash(a[..][index], a[..][other]);
          return false;
        }
      }
    }
    return true;
  }

  /** The shift loop of a deletion. */
  method ShiftOut(a: array<Record>, k: nat)
    requires k < a.Length
    modifies a
    ensures a[..] == Shifted(old(a[..]), k)
  {
    var index := k;
    while index + 1 < a.Length
      invariant k <= index < a.Length
      invariant forall i :: 0 <= i < k ==> a[i] == old(a[i])
      invariant forall i :: k <= i < index ==> a[i] == old(a[i + 1])
      invariant forall i :: index <= i < a.Length ==> a[i] == old(a[i])
    {
      a[index] := a[index + 1];
      index := index + 1;
    }
    a[a.Length - 1] := BLANK;
    assert |old(a[..])[..k] + old(a[..])[k + 1..]| == a.Length - 1;
  }

  method FreeSlot(a: array<Record>) returns (k: nat)
    ensures k == FirstInactive(a[..])
  {
    k := 0;
    while k < a.Length && a[k].active != 0
      invariant k <= a.Length && forall i :: 0 <= i < k ==> a[i].active != 0
    {
      k := k + 1;
    }
    FirstInactiveIs(a[..], k);
  }

  method NameExists(a: array<Record>, name: seq<byte>) returns (found: bool)
    requires NulFree(name) && forall i :: 0 <= i < a.Length && a[i].active == 1 ==> Terminated(a[i].name)
    ensures found <==> NameTaken(a[..], name)
  {
    CStrPadded(name, 1);
    var text := name + Zeros(1);
    for i := 0 to a.Length
      invariant forall j :: 0 <= j < i ==> !(a[j].active == 1 && NameKey(a[j]) == LowerAll(name))
    {
      if a[i].active == 1 {
        var same := NamesEqual(a[i].name, text);
        if same {
          assert a[..][i].active == 1 && NameKey(a[..][i]) == LowerAll(name);
          return true;
        }
      }
    }
    return false;
  }

  method FindId(a: array<Record>, id: seq<byte>) returns (k: nat)
    ensures k == Position(a[..], id)
  {
    k := 0;
    while k < a.Length && !(a[k].active == 1 && a[k].id == id)
      invariant k <= a.Length && forall i :: 0 <= i < k ==> !(a[i].active == 1 && a[i].id == id)
    {
      k := k + 1;
    }
    if k < a.Length {
      PositionIs(a[..], id, k);
    } else {
      PositionNone(a[..], id);
    }
  }

  /** Up to eight draws for an identifier that is neither zero nor taken. */
  method DrawId(a: array<Record>, ids: seq<seq<byte>>) returns (r: Option<seq<byte>>)
    ensures r == PickId(a[..], ids)
  {
    var attempt := 0;
    while attempt < |ids|
      invariant attempt <= |ids| && PickId(a[..], ids) == PickId(a[..], ids[attempt..])
    {
      if IdUsable(a[..], ids[attempt]) {
        return Some(ids[attempt]);
      }
      assert ids[attempt..][1..] == ids[attempt + 1..];
      attempt := attempt + 1;
    }
    return None;
  }

  class TokenStore {
    const config: Config
    var nvs: Option<Blob>

    constructor (config: Config)
      ensures this.config == config && nvs == None
    {
      this.config, nvs := config, None;
    }

    /** Every record read from the blob has the layout of the struct. */
    ghost predicate Laid()
      reads this
    {
      nvs.Some? ==> forall i :: 0 <= i < |nvs.value.records| ==> ShapeOk(nvs.value.records[i])
    }

    /** readable says whether NVS can be opened and read; an absent blob is no failure. */
    method LoadRecords(readable: bool) returns (r: Result<array<Record>>)
      requires Laid()
      ensures !readable ==> r == Err(ReadFailed)
      ensures readable ==> match Load(config, nvs)
                           case Err(e) => r == Err(e)
                           case Ok(rs) => r.Ok? && fresh(r.value) && r.value[..] == rs
    {
      if !readable {
        return Err(ReadFailed);
      }
      var a := new Record[config.count](_ => BLANK);
      if nvs.None? {
        return Ok(a);
      }
      var b := nvs.value;
      if |b.records| != config.count || b.version != config.version || b.recordSize != RECORD_SIZE {
        return Err(InvalidVersion);
      }
      for i := 0 to config.count
        invariant forall j :: 0 <= j < i ==> a[j] == b.records[j]
      {
        a[i] := b.records[i];
      }
      assert a[..] == b.records;
      var ok := CheckRecords(config, a);
      if !ok {
        return Err(InvalidContent);
      }
      return Ok(a);
    }

    method SaveRecords(a: array<Record>, save: Save)
      modifies this`nvs
      ensures nvs == Written(config, old(nvs), a[..], save)
    {
      if !save.NotWritten? {
        nvs := Some(Blob(config.version, RECORD_SIZE, a[..]));
      }
    }

    method CreateToken(h: Hash, name: seq<byte>, issuedAt: int, d: Draw, readable: bool) returns (r: Result<Created>)
      requires Laid() && DrawOk(d)
      modifies this`nvs
      ensures Laid()
      ensures readable ==> (nvs, r) == Create(config, h, old(nvs), name, issuedAt, d)
      ensures !readable ==> nvs == old(nvs) && r.Err?
    {
      hide RecordsValid, FirstInactive, NameTaken, PickId, Token;
      if !NameValid(name) || issuedAt < VALID_EPOCH {
        return Err(InvalidArgument);
      }
      var loaded := LoadRecords(readable);
      if loaded.Err? {
        return Err(loaded.error);
      }
      var a := loaded.value;
      ActiveNames(config, nvs, a[..]);
      var taken := NameExists(a, name);
      if taken {
        return Err(InvalidState);
      }
      var k := FreeSlot(a);
      if k == a.Length {
        return Err(NoMemory);
      }
      var id := DrawId(a, d.ids);
      if id.None? {
        return Err(Failed);
      }
      if !d.hashOk || |Verifier(h, d.salt, Token(d.secret))| != VERIFIER_BYTES {
        return Err(Failed);
      }
      if issuedAt >= YEAR_10000 {
        return Err(InvalidState);
      }
      ghost var rs := a[..];
      var record := NewRecord(config, h, name, issuedAt, id.value, d);
      a[k] := record;
      assert a[..] == rs[k := record];
      LoadShaped(config, nvs);
      NewRecordValid(config, h, name, issuedAt, id.value, d);
      SaveRecords(a, d.save);
      return if d.save.Saved? then Ok(Created(Token(d.secret), record)) else Err(Failed);
    }

    method DeleteToken(hex: seq<byte>, save: Save, readable: bool) returns (r: Result<()>)
      requires Laid()
      modifies this`nvs
      ensures Laid()
      ensures readable ==> (nvs, r) == Delete(config, old(nvs), hex, save)
      ensures !readable ==> nvs == old(nvs) && r.Err?
    {
      hide RecordsValid, Position, Shifted;
      if |hex| != 2 * ID_BYTES || FromHex(hex).None? {
        return Err(InvalidArgument);
      }
      var loaded := LoadRecords(readable);
      if loaded.Err? {
        return Err(loaded.error);
      }
      var a := loaded.value;
      var k := FindId(a, FromHex(hex).value);
      if k == a.Length {
        return Err(NotFound);
      }
      LoadShaped(config, nvs);
      ShiftedShaped(a[..], k);
      ShiftOut(a, k);
      SaveRecords(a, save);
      return if save.Saved? then Ok(()) else Err(Failed);
    }

    /** The loop runs over all records, active or not, and gives up when a hash cannot be derived. */
    method Authorize(h: Hash, token: seq<byte>, required: Scopes, readable: bool) returns (yes: bool)
      requires Laid()
      ensures yes <==> readable && Authorized(config, h, nvs, token, required)
    {
      if !TokenWellFormed(token) || required == {} || required - config.scope != {} {
        return false;
      }
      var loaded := LoadRecords(readable);
      if loaded.Err? {
        return false;
      }
      var a := loaded.value;
      ghost var rs := Load(config, nvs).value;
      LoadLength(config, nvs);
      yes := false;
      for i := 0 to a.Length
        invariant a[..] == rs
        invariant forall j :: 0 <= j < i ==> |Verifier(h, rs[j].salt, token)| == VERIFIER_BYTES
        invariant yes <==> exists j :: 0 <= j < i && Matches(h, rs[j], token, required)
      {
        var candidate := Verifier(h, a[i].salt, token);
        assert a[i] == rs[i];
        if |candidate| != VERIFIER_BYTES {
          return false;
        }
        yes := yes || Matches(h, a[i], token, required);
      }
    }
  }

  lemma {:induction false} ActiveNames(c: Config, nvs: Option<Blob>, rs: seq<Record>)
    requires Load(c, nvs) == Ok(rs)
    ensures forall i :: 0 <= i < |rs| && rs[i].active == 1 ==> Terminated(rs[i].name)
  {
    LoadValid(c, nvs);
    forall i | 0 <= i < |rs| && rs[i].active == 1 ensures Terminated(rs[i].name) {
      assert RecordValid(c, rs[i]) && rs[i].name[NAME_MAX] == 0;
    }
  }

  lemma {:induction false} LoadShaped(c: Config, nvs: Option<Blob>)
    requires Load(c, nvs).Ok?
    ensures forall i :: 0 <= i < |Load(c, nvs).value| ==> ShapeOk(Load(c, nvs).value[i])
  {
    LoadValid(c, nvs);
    var rs := Load(c, nvs).value;
    assert forall i :: 0 <= i < |rs| ==> RecordValid(c, rs[i]);
  }

  lemma {:induction false} ShiftedShaped(rs: seq<Record>, k: nat)
    requires k < |rs| && forall i :: 0 <= i < |rs| ==> ShapeOk(rs[i])
    ensures forall i :: 0 <= i < |rs| ==> ShapeOk(Shifted(rs, k)[i])
  {
    forall i | 0 <= i < |rs| ensures ShapeOk(Shifted(rs, k)[i]) {
      ShiftedAt(rs, k, i);
    }
  }

  lemma {:induction false} LoadLength(c: Config, nvs: Option<Blob>)
    requires Load(c, nvs).Ok?
    ensures |Load(c, nvs).value| == c.count
  {
  }
}
