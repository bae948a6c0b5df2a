/**
 The ADMIN password record of src/management-credentials.c: writing a new record over an old
 one (or over the two blobs of the legacy format) and verifying against whatever is stored.
 NVS is a map whose key writes are atomic and permanent; the key derivation is a parameter.
 */
module AdminCredentials {
  import opened CBytes
  import opened Bits

  datatype Key = LegacySalt | LegacyHash | Credential | Staged

  type Nvs = map<Key, seq<byte>>

  type Salt = s: seq<byte> | |s| == 16 witness Zeros(16)

  type Digest = s: seq<byte> | |s| == 32 witness Zeros(32)

  /** PBKDF2-HMAC-SHA-256: password, salt and iteration count to digest. */
  type Kdf = (seq<byte>, Salt, nat) -> Digest

  const VERSION := 1
  const ITERATIONS := 12500
  const LEGACY_ITERATIONS := 100000
  const MIN_ITERATIONS := 1000
  const MAX_ITERATIONS := 1000000
  const CREDENTIAL_BYTES := 56

  // ---------------------------------------------------------------- the stored blob

  datatype Record = Record(version: nat, iterations: nat, salt: Salt, hash: Digest)

  function Pack(c: Record): (blob: seq<byte>)
    requires c.version < 0x1_0000_0000 && c.iterations < 0x1_0000_0000
    ensures |blob| == CREDENTIAL_BYTES
  {
    WordBytes(c.version) + WordBytes(c.iterations) + c.salt + c.hash
  }

  predicate CurrentFormat(c: Record) {
    c.version == VERSION && MIN_ITERATIONS <= c.iterations <= MAX_ITERATIONS
  }

  /** The record a blob holds; None unless it has the right size, version and iteration range. */
  function Unpack(blob: seq<byte>): (r: Option<Record>) {
    if |blob| != CREDENTIAL_BYTES then None
    else
      var c := Record(Word(blob[..4], 0), Word(blob[4..8], 0), blob[8..24], blob[24..56]);
      if CurrentFormat(c) then Some(c) else None
  }

  lemma {:induction false} PackParts(c: Record)
    requires c.version < 0x1_0000_0000 && c.iterations < 0x1_0000_0000
    ensures var blob := Pack(c);
            && blob[..4] == WordBytes(c.version) && blob[4..8] == WordBytes(c.iterations)
            && blob[8..24] == c.salt && blob[24..56] == c.hash
  {
    hide WordBytes;
    var a, b := WordBytes(c.version), WordBytes(c.iterations);
    assert |a| == 4 && |b| == 4;
    var blob := Pack(c);
    assert blob == a + b + c.salt + c.hash;
  }

  lemma {:induction false} PackFields(c: Record)
    requires c.version < 0x1_0000_0000 && c.iterations < 0x1_0000_0000
    ensures Unpack(Pack(c)) == if CurrentFormat(c) then Some(c) else None
  {
    hide Pack, WordBytes, Word;
    PackParts(c);
    WordOfBytes(c.version);
    WordOfBytes(c.iterations);
  }

  lemma {:induction false} PackUnpack(c: Record)
    requires CurrentFormat(c)
    ensures Unpack(Pack(c)) == Some(c)
  {
    hide Pack, Unpack;
    PackFields(c);
  }

  // ---------------------------------------------------------------- what is accepted

  /** What verification compares against, from either format. */
  datatype Secret = Secret(salt: Salt, hash: Digest, iterations: nat, legacy: bool)

  function Loaded(nvs: Nvs): (r: Option<Secret>) {
    if Credential in nvs then
      match Unpack(nvs[Credential])
      case None => None
      case Some(c) => Some(Secret(c.salt, c.hash, c.iterations, false))
    else if LegacySalt in nvs && LegacyHash in nvs && |nvs[LegacySalt]| == 16 && |nvs[LegacyHash]| == 32 then
      Some(Secret(nvs[LegacySalt], nvs[LegacyHash], LEGACY_ITERATIONS, true))
    else None
  }

  predicate Opens(kdf: Kdf, secret: Secret, password: seq<byte>) {
    kdf(password, secret.salt, secret.iterations) == secret.hash
  }

  predicate Accepts(kdf: Kdf, nvs: Nvs, password: seq<byte>) {
    Loaded(nvs).Some? && Opens(kdf, Loaded(nvs).value, password)
  }

  predicate Configured(nvs: Nvs) {
    Loaded(nvs).Some?
  }

  predicate Acceptable(password: seq<byte>) {
    12 <= |password| <= 128
  }

  function NewRecord(kdf: Kdf, password: seq<byte>, salt: Salt): (c: Record) {
    Record(VERSION, ITERATIONS, salt, kdf(password, salt, ITERATIONS))
  }

  function NewSecret(kdf: Kdf, password: seq<byte>, salt: Salt): (s: Secret) {
    Secret(salt, kdf(password, salt, ITERATIONS), ITERATIONS, false)
  }

  /** Without a current record, a password opens the legacy pair exactly when 100000 iterations over its salt give its hash. */
  lemma {:induction false} LegacyAcceptsIff(kdf: Kdf, nvs: Nvs, password: seq<byte>)
    requires Credential !in nvs
    ensures Accepts(kdf, nvs, password) <==>
            && LegacySalt in nvs && LegacyHash in nvs && |nvs[LegacySalt]| == 16
            && kdf(password, nvs[LegacySalt], 100000) == nvs[LegacyHash]
  {
    if LegacySalt in nvs && LegacyHash in nvs && |nvs[LegacySalt]| == 16 && |nvs[LegacyHash]| == 32 {
      assert Loaded(nvs) == Some(Secret(nvs[LegacySalt], nvs[LegacyHash], 100000, true));
    }
  }

  /** A current record decides alone: by its own iteration count, and never outside the supported range. */
  lemma {:induction false} CurrentAcceptsIff(kdf: Kdf, nvs: Nvs, c: Record, password: seq<byte>)
    requires c.version < 0x1_0000_0000 && c.iterations < 0x1_0000_0000
    requires Credential in nvs && nvs[Credential] == Pack(c)
    ensures Accepts(kdf, nvs, password) <==>
            c.version == 1 && 1000 <= c.iterations <= 1000000 && kdf(password, c.salt, c.iterations) == c.hash
  {
    PackFields(c);
  }

  /** What setting a password leaves: version 1, 12500 iterations over the drawn salt. */
  lemma {:induction false} NewRecordAccepts(kdf: Kdf, nvs: Nvs, password: seq<byte>, salt: Salt, attempt: seq<byte>)
    ensures Accepts(kdf, After(nvs, Pack(NewRecord(kdf, password, salt)), WRITES), attempt) <==>
            kdf(attempt, salt, 12500) == kdf(password, salt, 12500)
  {
    hide Pack, Accepts;
    var done := After(nvs, Pack(NewRecord(kdf, password, salt)), WRITES);
    CurrentAcceptsIff(kdf, done, NewRecord(kdf, password, salt), attempt);
  }

  // ---------------------------------------------------------------- interrupted writes

  const WRITES := 5

  /** The store after the first k of the five writes that set a password. */
  function After(nvs: Nvs, blob: seq<byte>, k: nat): (r: Nvs) {
    if k == 0 then nvs
    else if k == 1 then nvs[Staged := blob]
    else if k == 2 then nvs[Staged := blob][Credential := blob]
    else if k == 3 then nvs[Staged := blob][Credential := blob] - {LegacySalt}
    else if k == 4 then nvs[Staged := blob][Credential := blob] - {LegacySalt, LegacyHash}
    else nvs[Credential := blob] - {LegacySalt, LegacyHash, Staged}
  }

  /** A prefix of the writes leaves the old secret or installs the new one; the second write decides. */
  lemma {:induction false} PrefixLoads(kdf: Kdf, nvs: Nvs, password: seq<byte>, salt: Salt, k: nat)
    ensures Loaded(After(nvs, Pack(NewRecord(kdf, password, salt)), k)) ==
            if k < 2 then Loaded(nvs) else Some(NewSecret(kdf, password, salt))
  {
    PackUnpack(NewRecord(kdf, password, salt));
  }

  /** Cutting the sequence anywhere accepts what the old record did or what the new one does, and keeps the device configured. */
  lemma {:induction false} NeverAMixture(kdf: Kdf, nvs: Nvs, password: seq<byte>, salt: Salt, k: nat)
    ensures var cut := After(nvs, Pack(NewRecord(kdf, password, salt)), k);
            && ((forall p :: Accepts(kdf, cut, p) <==> Accepts(kdf, nvs, p)) ||
                (forall p :: Accepts(kdf, cut, p) <==> Opens(kdf, NewSecret(kdf, password, salt), p)))
            && (Configured(nvs) ==> Configured(cut))
            && (k >= 2 ==> Accepts(kdf, cut, password))
  {
    hide After, Pack, Loaded;
    PrefixLoads(kdf, nvs, password, salt, k);
  }

  /** A complete sequence leaves the new record and nothing of the legacy format. */
  lemma {:induction false} CompleteWrites(kdf: Kdf, nvs: Nvs, password: seq<byte>, salt: Salt)
    ensures var done := After(nvs, Pack(NewRecord(kdf, password, salt)), WRITES);
            && Loaded(done) == Some(NewSecret(kdf, password, salt))
            && done.Keys == nvs.Keys + {Credential} - {LegacySalt, LegacyHash, Staged}
  {
    PrefixLoads(kdf, nvs, password, salt, WRITES);
  }

  // ---------------------------------------------------------------- every run of attempts

  /** One attempt to set a password, cut after some of its writes. */
  datatype Attempt = Attempt(password: seq<byte>, salt: Salt, writes: nat)

  function Attempted(kdf: Kdf, nvs: Nvs, a: Attempt): (r: Nvs) {
    if Acceptable(a.password) then After(nvs, Pack(NewRecord(kdf, a.password, a.salt)), a.writes) else nvs
  }

  function Run(kdf: Kdf, nvs: Nvs, attempts: seq<Attempt>): (r: Nvs)
    decreases attempts
  {
    if attempts == [] then nvs else Run(kdf, Attempted(kdf, nvs, attempts[0]), attempts[1..])
  }

  /** The attempt whose record counts, judged from the attempts alone. */
  function LastPromoted(attempts: seq<Attempt>): (r: Option<Attempt>)
    ensures r.Some? ==> r.value in attempts && Acceptable(r.value.password) && r.value.writes >= 2
    decreases attempts
  {
    if attempts == [] then None
    else
      var last := attempts[|attempts| - 1];
      if Acceptable(last.password) && last.writes >= 2 then Some(last)
      else LastPromoted(attempts[..|attempts| - 1])
  }

  lemma {:induction false} RunSnoc(kdf: Kdf, nvs: Nvs, attempts: seq<Attempt>, a: Attempt)
    ensures Run(kdf, nvs, attempts + [a]) == Attempted(kdf, Run(kdf, nvs, attempts), a)
    decreases attempts
  {
    hide Attempted;
    if attempts == [] {
      assert (attempts + [a])[1..] == [];
    } else {
      assert (attempts + [a])[1..] == attempts[1..] + [a];
      RunSnoc(kdf, Attempted(kdf, nvs, attempts[0]), attempts[1..], a);
    }
  }

  /** After any sequence of interrupted attempts the secret is the last promoted one, or the original. */
  lemma {:induction false} RunLoads(kdf: Kdf, nvs: Nvs, attempts: seq<Attempt>)
    ensures Loaded(Run(kdf, nvs, attempts)) ==
            match LastPromoted(attempts) {
              case None => Loaded(nvs)
              case Some(a) => Some(NewSecret(kdf, a.password, a.salt))
            }
    decreases attempts
  {
    hide Loaded, After, Pack;
    if attempts != [] {
      var n := |attempts| - 1;
      var a := attempts[n];
      assert attempts == attempts[..n] + [a];
      RunSnoc(kdf, nvs, attempts[..n], a);
      RunLoads(kdf, nvs, attempts[..n]);
      PrefixLoads(kdf, Run(kdf, nvs, attempts[..n]), a.password, a.salt, a.writes);
    }
  }

  lemma {:induction false} ConfiguredStaysConfigured(kdf: Kdf, nvs: Nvs, attempts: seq<Attempt>)
    requires Configured(nvs)
    ensures Configured(Run(kdf, nvs, attempts))
    ensures LastPromoted(attempts).Some? ==> Accepts(kdf, Run(kdf, nvs, attempts), LastPromoted(attempts).value.password)
  {
    hide Loaded, Run, LastPromoted;
    RunLoads(kdf, nvs, attempts);
  }

  /** Migrating at login rewrites the password just accepted, so it is accepted wherever that is cut. */
  lemma {:induction false} MigrationKeepsPassword(kdf: Kdf, nvs: Nvs, password: seq<byte>, salt: Salt, k: nat)
    requires Accepts(kdf, nvs, password) && Loaded(nvs).value.legacy
    ensures var cut := After(nvs, Pack(NewRecord(kdf, password, salt)), k);
            Accepts(kdf, cut, password) && (Loaded(cut).value.legacy <==> k < 2)
  {
    hide After, Pack, Loaded;
    PrefixLoads(kdf, nvs, password, salt, k);
  }

  // ---------------------------------------------------------------- the operations

  /** Compares without stopping early; equal exactly when no bit ever differed. */
  method ConstantTimeEqual(left: seq<byte>, right: seq<byte>) returns (equal: bool)
    requires |left| == |right|
    ensures equal <==> left == right
  {
    hide Or, Xor;
    var difference: byte := 0;
    for index := 0 to |left|
      invariant difference == 0 <==> left[..index] == right[..index]
    {
      OrXorZero(difference, left[index], right[index]);
      difference := Or(difference, Xor(left[index], right[index]));
      assert left[..index + 1] == left[..index] + [left[index]];
      assert right[..index + 1] == right[..index] + [right[index]];
    }
    assert left[..|left|] == left && right[..|right|] == right;
    equal := difference == 0;
  }

  /** The platform calls of an operation; each may report a failure. */
  datatype Call =
    | Derive | OpenStage | WriteStage | CommitStage
    | OpenBack | ReadBack | DeriveBack
    | OpenFinal | WriteCredential | EraseSalt | EraseHash | EraseStage | CommitFinal

  datatype Outcome = Stored | InvalidArgument | Failed

  datatype Reads = Reads(handle: bool, credential: bool, salt: bool, hash: bool, derived: bool)

  lemma {:induction false} NoFaults(faults: set<Call>)
    requires faults !! {Derive, OpenStage, WriteStage, CommitStage, OpenBack, ReadBack, DeriveBack}
    requires faults !! {OpenFinal, WriteCredential, EraseSalt, EraseHash, EraseStage, CommitFinal}
    ensures faults == {}
  {
    forall c | c in faults ensures false {
      match c {
        case Derive => case OpenStage => case WriteStage => case CommitStage =>
        case OpenBack => case ReadBack => case DeriveBack => case OpenFinal => case WriteCredential =>
        case EraseSalt => case EraseHash => case EraseStage => case CommitFinal =>
      }
    }
  }

  predicate AllGood(r: Reads) {
    r.handle && r.credential && r.salt && r.hash && r.derived
  }

  class CredentialStore {
    var nvs: Nvs

    constructor (stored: Nvs)
      ensures nvs == stored
    {
      nvs := stored;
    }

    /** Stage, read back and compare, promote, erase what is obsolete; give up at the first failing call. */
    method SetAdminPassword(kdf: Kdf, password: seq<byte>, salt: Salt, faults: set<Call>)
      returns (outcome: Outcome, ghost writes: nat)
      modifies this
      ensures outcome == InvalidArgument <==> |password| < 12 || |password| > 128
      ensures outcome == Stored <==> Acceptable(password) && faults == {}
      ensures nvs == After(old(nvs), Pack(NewRecord(kdf, password, salt)), writes)
      ensures writes <= WRITES
      ensures outcome == Stored ==> writes == WRITES
      ensures outcome == InvalidArgument ==> writes == 0
    {
      writes := 0;
      if !Acceptable(password) {
        return InvalidArgument, 0;
      }
      var blob := Pack(NewRecord(kdf, password, salt));
      if Derive in faults || OpenStage in faults || WriteStage in faults {
        return Failed, 0;
      }
      nvs, writes := nvs[Staged := blob], 1;
      if CommitStage in faults || OpenBack in faults || ReadBack in faults {
        return Failed, 1;
      }
      PackUnpack(NewRecord(kdf, password, salt));
      var staged := Unpack(nvs[Staged]);
      if staged.None? || DeriveBack in faults {
        return Failed, 1;
      }
      var matches := ConstantTimeEqual(staged.value.hash,
                                       kdf(password, staged.value.salt, staged.value.iterations));
      if !matches {
        outcome := Failed;
        return;
      }
      if OpenFinal in faults || WriteCredential in faults {
        return Failed, 1;
      }
      outcome, writes := Promote(blob, faults);
      if outcome == Stored {
        NoFaults(faults);
      }
    }

    /** The writes behind the read-back. */
    method Promote(blob: seq<byte>, faults: set<Call>) returns (outcome: Outcome, ghost writes: nat)
      requires Staged in nvs && nvs[Staged] == blob && WriteCredential !in faults
      modifies this
      ensures outcome == Stored <==> {EraseSalt, EraseHash, EraseStage, CommitFinal} !! faults
      ensures outcome != InvalidArgument
      ensures 2 <= writes <= WRITES && (outcome == Stored ==> writes == WRITES)
      ensures nvs == After(old(nvs), blob, writes)
    {
      ghost var before := nvs;
      assert before[Staged := blob] == before;
      nvs := nvs[Credential := blob];
      if EraseSalt in faults {
        return Failed, 2;
      }
      nvs := nvs - {LegacySalt};
      if EraseHash in faults {
        return Failed, 3;
      }
      nvs := nvs - {LegacyHash};
      assert nvs == before[Credential := blob] - {LegacySalt, LegacyHash};
      if EraseStage in faults {
        return Failed, 4;
      }
      nvs := nvs - {Staged};
      assert nvs == before[Credential := blob] - {LegacySalt, LegacyHash, Staged};
      outcome, writes := if CommitFinal in faults then Failed else Stored, WRITES;
    }

    /** Accepts only what the stored record accepts, and all of it when every read succeeds. */
    method VerifyAdminPassword(kdf: Kdf, password: seq<byte>, io: Reads) returns (ok: bool, needsMigration: bool)
      ensures ok ==> Accepts(kdf, nvs, password)
      ensures AllGood(io) ==> (ok <==> Accepts(kdf, nvs, password))
      ensures needsMigration <==> ok && Loaded(nvs).value.legacy
    {
      if !io.handle || !io.credential {
        return false, false;
      }
      var secret: Option<Secret> := None;
      if Credential in nvs {
        var c := Unpack(nvs[Credential]);
        if c.Some? {
          secret := Some(Secret(c.value.salt, c.value.hash, c.value.iterations, false));
        }
      } else if io.salt && io.hash && LegacySalt in nvs && LegacyHash in nvs &&
                |nvs[LegacySalt]| == 16 && |nvs[LegacyHash]| == 32 {
        secret := Some(Secret(nvs[LegacySalt], nvs[LegacyHash], LEGACY_ITERATIONS, true));
      }
      if secret.None? || !io.derived {
        return false, false;
      }
      ok := ConstantTimeEqual(secret.value.hash, kdf(password, secret.value.salt, secret.value.iterations));
      needsMigration := ok && secret.value.legacy;
    }

    /** Never claims a password that could not be verified against; finds every one that can. */
    method IsConfigured(io: Reads) returns (configured: bool)
      ensures configured ==> Configured(nvs)
      ensures AllGood(io) ==> (configured <==> Configured(nvs))
    {
      if !io.handle || !io.credential {
        return false;
      }
      if Credential in nvs {
        return Unpack(nvs[Credential]).Some?;
      }
      configured := io.salt && io.hash && LegacySalt in nvs && LegacyHash in nvs &&
        |nvs[LegacySalt]| == 16 && |nvs[LegacyHash]| == 32;
    }
  }
}
