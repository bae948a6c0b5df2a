/**
 Staging, validating and promoting Wi-Fi credentials: src/wifi.c over src/wifi-credentials.c.
 One state per NVS call, so that a failure or a power loss can strike between any two calls.
 Writes go to a working copy that nvs_commit makes permanent and a reboot throws away.
 */
module WifiCredentials {
  import opened CBytes

  datatype Cred = Cred(ssid: seq<byte>, password: seq<byte>)

  datatype Key = Ssid | Password | PendingSsid | PendingPassword

  type Store = map<Key, seq<byte>>

  function Read(m: Store, ssid: Key, password: Key): (r: Option<Cred>) {
    if ssid in m && password in m && m[ssid] != [] then Some(Cred(m[ssid], m[password])) else None
  }

  function Active(m: Store): (r: Option<Cred>) {
    Read(m, Ssid, Password)
  }

  function Pending(m: Store): (r: Option<Cred>) {
    Read(m, PendingSsid, PendingPassword)
  }

  /** Where the device is: the next NVS call or connection attempt it will make. */
  datatype Pc =
    | Off
    | EraseSsid(pending: Cred, id: nat, saved: Option<Cred>)
    | ErasePassword(pending: Cred, id: nat, saved: Option<Cred>)
    | EraseCommit(pending: Cred, id: nat, saved: Option<Cred>)
    | Connecting(pending: Cred, id: nat, saved: Option<Cred>)
    | SaveSsid(pending: Cred, saved: Option<Cred>)
    | SavePassword(pending: Cred, saved: Option<Cred>)
    | SaveCommit(pending: Cred, saved: Option<Cred>)
    | TrySaved(saved: Option<Cred>)
    | Running(online: bool)
    | StageSsid(cred: Cred, online: bool)
    | StagePassword(cred: Cred, online: bool)
    | StageCommit(cred: Cred, online: bool)
    | ScheduleRestart(online: bool)
    | UnstageSsid
    | UnstagePassword
    | UnstageCommit

  /**
   committed survives power loss, working does not. The rest is history: the active record
   found at the start, the records staged, those that obtained an address while pending, a number
   for each staging, the numbers of the stagings whose validation was attempted, and whether the
   working copy holds the mixed pair a failed promotion left.
   */
  datatype State = State(
    pc: Pc, working: Store, committed: Store,
    initial: Option<Cred>, staged: set<Cred>, validated: set<Cred>,
    nextId: nat, workingId: nat, committedId: nat, attempts: seq<nat>, torn: bool)

  datatype Event =
    | Boot(pendingReadable: bool, activeReadable: bool)
    | Succeed | Fail
    | Stage(cred: Cred)
    | Reset(erased: bool, committed: bool)   // the recovery button, at any moment
    | PowerLoss

  function Start(m: Store): (s: State) {
    var pending := Pending(m);
    State(Off, m, m, Active(m), if pending.Some? then {pending.value} else {}, {}, 1, 0, 0, [], false)
  }

  /** The length rules every staging route checks. */
  predicate Acceptable(c: Cred) {
    0 < |c.ssid| <= 32 && (|c.password| == 0 || 8 <= |c.password| <= 63)
  }

  /** The management page refuses to turn the active network into an open one. */
  predicate WouldClearPassword(m: Store, c: Cred) {
    var a := Active(m);
    a.Some? && a.value.ssid == c.ssid && a.value.password != [] && c.password == []
  }

  lemma {:induction false} RefusalIs(m: Store, c: Cred)
    ensures Acceptable(c) <==> 0 < |c.ssid| <= 32 && (c.password == [] || 8 <= |c.password| <= 63)
    ensures WouldClearPassword(m, c) <==>
            Active(m).Some? && Active(m).value.ssid == c.ssid && Active(m).value.password != [] && c.password == []
  {
  }

  lemma {:induction false} PendingStored(m: Store, c: Cred)
    requires c.ssid != []
    ensures Pending(m[PendingSsid := c.ssid][PendingPassword := c.password]) == Some(c)
  {
  }

  function Commit(s: State, next: Pc): (t: State) {
    s.(pc := next, committed := s.working, committedId := s.workingId)
  }

  function Booted(s: State, e: Event): (t: State)
    requires e.Boot?
  {
    var saved := if e.activeReadable then Active(s.working) else None;
    var pending := if e.pendingReadable then Pending(s.working) else None;
    s.(pc := if pending.Some? then EraseSsid(pending.value, s.workingId, saved) else TrySaved(saved))
  }

  function Succeeded(s: State): (t: State) {
    match s.pc
    case Off => s
    case EraseSsid(p, id, saved) => s.(pc := ErasePassword(p, id, saved), working := s.working - {PendingSsid})
    case ErasePassword(p, id, saved) => s.(pc := EraseCommit(p, id, saved), working := s.working - {PendingPassword})
    case EraseCommit(p, id, saved) => Commit(s, Connecting(p, id, saved)).(attempts := s.attempts + [id])
    case Connecting(p, id, saved) => s.(pc := SaveSsid(p, saved), validated := s.validated + {p})
    case SaveSsid(p, saved) => s.(pc := SavePassword(p, saved), working := s.working[Ssid := p.ssid])
    case SavePassword(p, saved) => s.(pc := SaveCommit(p, saved), working := s.working[Password := p.password])
    case SaveCommit(p, saved) => Commit(s, Running(true))
    case TrySaved(saved) => s.(pc := Running(saved.Some?))
    case Running(online) => s
    case StageSsid(c, on) => s.(pc := StagePassword(c, on), working := s.working[PendingSsid := c.ssid])
    case StagePassword(c, on) =>
      s.(pc := StageCommit(c, on), working := s.working[PendingPassword := c.password],
         workingId := s.nextId, nextId := s.nextId + 1, staged := s.staged + {c})
    case StageCommit(c, on) => Commit(s, ScheduleRestart(on))
    case ScheduleRestart(on) => s.(pc := Running(on))
    case UnstageSsid => s.(pc := UnstagePassword, working := s.working - {PendingSsid})
    case UnstagePassword => s.(pc := UnstageCommit, working := s.working - {PendingPassword})
    case UnstageCommit => Commit(s, Running(true))
  }

  /** Every failure falls back to the saved record or to where the request came from. */
  function FailedStep(s: State): (t: State) {
    match s.pc
    case Off => s
    case EraseSsid(_, _, saved) => s.(pc := TrySaved(saved))
    case ErasePassword(_, _, saved) => s.(pc := TrySaved(saved))
    case EraseCommit(_, _, saved) => s.(pc := TrySaved(saved))
    case Connecting(_, _, saved) => s.(pc := TrySaved(saved))
    case SaveSsid(_, saved) => s.(pc := TrySaved(saved))
    case SavePassword(_, saved) => s.(pc := TrySaved(saved), torn := Tears(s))
    case SaveCommit(_, saved) => s.(pc := TrySaved(saved))
    case TrySaved(_) => s.(pc := Running(false))
    case Running(_) => s
    case StageSsid(_, on) => s.(pc := Running(on))
    case StagePassword(_, on) => s.(pc := Running(on))
    case StageCommit(_, on) => s.(pc := Running(on))
    case ScheduleRestart(on) => s.(pc := if on then UnstageSsid else Running(false))
    case UnstageSsid => s.(pc := Running(true))
    case UnstagePassword => s.(pc := Running(true))
    case UnstageCommit => s.(pc := Running(true))
  }

  /**
   The password write of a promotion is next, and if it fails the pair of the new name and the
   old password is left: name and password both change, and the pair is neither the initial
   record nor one that ever obtained an address.
   */
  predicate Tears(s: State) {
    && s.pc.SavePassword? && Ssid in s.working && s.working[Ssid] != [] && Password in s.working
    && var before, pair := Active(s.committed), Cred(s.working[Ssid], s.working[Password]);
    && (before.Some? ==> before.value.ssid != pair.ssid) && pair.password != s.pc.pending.password
    && s.initial != Some(pair) && pair !in s.validated
  }

  function Step(s: State, e: Event): (t: State) {
    match e
    case Boot(_, _) => if s.pc.Off? then Booted(s, e) else s
    case Succeed => Succeeded(s)
    case Fail => FailedStep(s)
    case Stage(c) =>
      if s.pc.Running? && Acceptable(c) && !(s.pc.online && WouldClearPassword(s.working, c))
      then s.(pc := StageSsid(c, s.pc.online)) else s
    case Reset(erased, committed) =>
      if s.pc.Off? || !erased then s
      else if committed then s.(working := map[], committed := map[], committedId := s.workingId, torn := false)
      else s.(working := map[], torn := false)
    case PowerLoss => s.(pc := Off, working := s.committed, workingId := s.committedId, torn := false)
  }

  function Run(s: State, es: seq<Event>): (t: State)
    decreases es
  {
    if es == [] then s else Run(Step(s, es[0]), es[1..])
  }

  // ---------------------------------------------------------------- safety of every run

  /** Absent, the initial record, or a staged record that obtained an address. */
  predicate Legitimate(s: State, r: Option<Cred>) {
    r.None? || r == s.initial || r.value in s.validated
  }

  predicate Commits(s: State, e: Event) {
    e.Succeed? && (s.pc.EraseCommit? || s.pc.SaveCommit? || s.pc.StageCommit? || s.pc.UnstageCommit?)
  }

  /** The working copy is thrown away or emptied. */
  predicate Forgets(e: Event) {
    e.PowerLoss? || (e.Reset? && e.erased)
  }

  /** At every moment of the run, after a power loss at that moment included. */
  predicate AlwaysLegitimate(s: State, es: seq<Event>)
    decreases es
  {
    Legitimate(s, Active(s.committed)) && (es == [] || AlwaysLegitimate(Step(s, es[0]), es[1..]))
  }

  predicate BootHolds(pc: Pc) {
    pc.EraseSsid? || pc.ErasePassword? || pc.EraseCommit? || pc.Connecting?
  }

  /** The places behind the erasure of the pending name. */
  predicate PendingErased(pc: Pc) {
    || pc.ErasePassword? || pc.EraseCommit? || pc.Connecting?
    || pc.SaveSsid? || pc.SavePassword? || pc.SaveCommit?
    || pc.UnstagePassword? || pc.UnstageCommit?
  }

  /** What each place of the program guarantees about the active record in the working copy. */
  predicate ActiveOk(s: State) {
    && (!s.pc.SavePassword? ==> (s.torn <==> !Legitimate(s, Active(s.working))))
    && (s.pc.SavePassword? ==> (Ssid in s.working ==> s.working[Ssid] == s.pc.pending.ssid))
    && (Promotes(s.pc) ==> s.pc.pending in s.validated)
    && (s.pc.Connecting? || s.pc.SaveSsid? || s.pc.SavePassword? ==>
          (Password in s.working ==> Password in s.committed && s.committed[Password] == s.working[Password]))
  }

  /** A torn pair is only around between the failure and the next power loss or reset. */
  predicate TornOk(s: State) {
    s.torn ==> !s.pc.Off? && !BootHolds(s.pc) && !Promotes(s.pc)
  }

  /** And about the pending record. */
  predicate PendingOk(s: State) {
    && (Pending(s.committed).Some? ==> Pending(s.committed).value in s.staged)
    && s.validated <= s.staged
    && (BootHolds(s.pc) ==> s.pc.pending in s.staged)
    && (PendingErased(s.pc) ==> PendingSsid !in s.working)
    && (s.pc.StagePassword? ==> (PendingSsid in s.working ==> s.working[PendingSsid] == s.pc.cred.ssid))
    && (s.pc.StageCommit? ==> Pending(s.working).None? || Pending(s.working).value in s.staged)
    && (s.pc.Off? ==> s.working == s.committed && s.workingId == s.committedId)
  }

  /** No staging is validated twice: the number of a record still pending was never attempted. */
  predicate AttemptsOk(s: State) {
    && (forall i, j :: 0 <= i < j < |s.attempts| ==> s.attempts[i] != s.attempts[j])
    && (forall i :: 0 <= i < |s.attempts| ==> s.attempts[i] < s.nextId)
    && s.workingId < s.nextId && s.committedId < s.nextId
    && (Pending(s.committed).Some? ==> s.committedId !in s.attempts)
    && (s.pc.StageCommit? ==> s.workingId !in s.attempts)
    && (s.pc.EraseSsid? || s.pc.ErasePassword? || s.pc.EraseCommit? ==>
          s.pc.id !in s.attempts && s.pc.id < s.nextId)
  }

  predicate Bookkeeping(s: State) {
    PendingOk(s) && AttemptsOk(s) && TornOk(s)
  }

  predicate Inv(s: State) {
    Legitimate(s, Active(s.committed)) && ActiveOk(s) && Bookkeeping(s)
  }

  lemma {:induction false} StartOk(m: Store)
    ensures Inv(Start(m))
  {
  }

  predicate Promotes(pc: Pc) {
    pc.SaveSsid? || pc.SavePassword? || pc.SaveCommit?
  }

  /** The calls of the boot path: erasing the pending record, connecting, promoting. */
  lemma {:induction false} BootPathBooks(s: State)
    requires Bookkeeping(s) && (BootHolds(s.pc) || Promotes(s.pc))
    ensures Bookkeeping(Succeeded(s))
  {
    match s.pc
    case EraseSsid(p, id, saved) =>
    case ErasePassword(p, id, saved) =>
    case EraseCommit(p, id, saved) =>
    case Connecting(p, id, saved) =>
    case SaveSsid(p, saved) =>
    case SavePassword(p, saved) =>
    case SaveCommit(p, saved) =>
  }

  predicate Stages(pc: Pc) {
    pc.StageSsid? || pc.StagePassword? || pc.StageCommit?
  }

  /** The calls that stage a record. */
  lemma {:induction false} StagePathBooks(s: State)
    requires Bookkeeping(s) && Stages(s.pc)
    ensures Bookkeeping(Succeeded(s))
  {
    match s.pc
    case StageSsid(c, on) =>
    case StagePassword(c, on) =>
    case StageCommit(c, on) =>
  }

  /** Everything else: idling, and taking a staged record back. */
  lemma {:induction false} OtherPathsBook(s: State)
    requires Bookkeeping(s) && !BootHolds(s.pc) && !Promotes(s.pc) && !Stages(s.pc)
    ensures Bookkeeping(Succeeded(s))
  {
    match s.pc
    case Off =>
    case TrySaved(saved) =>
    case Running(online) =>
    case ScheduleRestart(on) =>
    case UnstageSsid =>
    case UnstagePassword =>
    case UnstageCommit =>
  }

  /** A failing call moves on without touching the stores. */
  lemma {:induction false} FailureBooks(s: State)
    requires Bookkeeping(s)
    ensures Bookkeeping(FailedStep(s))
  {
    var t := FailedStep(s);
    assert t.(pc := s.pc, torn := s.torn) == s;
    assert t.pc == s.pc || t.pc.TrySaved? || t.pc.Running? || t.pc.UnstageSsid?;
  }

  /** Every event keeps the books on pending records, torn or not. */
  lemma {:induction false} StepBooks(s: State, e: Event)
    requires Bookkeeping(s)
    ensures Bookkeeping(Step(s, e))
  {
    match e
    case Boot(_, _) =>
    case Succeed =>
      if BootHolds(s.pc) || Promotes(s.pc) {
        BootPathBooks(s);
      } else if Stages(s.pc) {
        StagePathBooks(s);
      } else {
        OtherPathsBook(s);
      }
    case Fail => FailureBooks(s);
    case Stage(c) =>
    case Reset(erased, committed) =>
    case PowerLoss =>
  }

  lemma {:induction false} SuccessKeepsActive(s: State)
    requires Inv(s) && !(s.torn && Commits(s, Succeed))
    ensures var t := Succeeded(s); Legitimate(t, Active(t.committed)) && ActiveOk(t)
  {
    hide PendingOk, AttemptsOk;
    match s.pc
    case Off =>
    case EraseSsid(p, id, saved) =>
    case ErasePassword(p, id, saved) =>
    case EraseCommit(p, id, saved) =>
    case Connecting(p, id, saved) =>
    case SaveSsid(p, saved) =>
    case SavePassword(p, saved) =>
    case SaveCommit(p, saved) =>
    case TrySaved(saved) =>
    case Running(online) =>
    case StageSsid(c, on) =>
    case StagePassword(c, on) =>
    case StageCommit(c, on) =>
    case ScheduleRestart(on) =>
    case UnstageSsid =>
    case UnstagePassword =>
    case UnstageCommit =>
  }

  /** Unless all four differences hold, the pair left by a failed password write is somebody's record. */
  lemma {:induction false} FailedPasswordWrite(s: State)
    requires Inv(s) && s.pc.SavePassword?
    ensures Tears(s) <==> !Legitimate(s, Active(s.working))
  {
    hide Bookkeeping;
  }

  lemma {:induction false} FailureKeepsActive(s: State)
    requires Inv(s)
    ensures var t := FailedStep(s); Legitimate(t, Active(t.committed)) && ActiveOk(t)
  {
    hide AttemptsOk, PendingOk;
    var t := FailedStep(s);
    assert t.(pc := s.pc, torn := s.torn) == s;
    if s.pc.SavePassword? {
      FailedPasswordWrite(s);
    }
  }

  lemma {:induction false} StepKeepsInv(s: State, e: Event)
    requires Inv(s) && !(s.torn && Commits(s, e))
    ensures Inv(Step(s, e))
  {
    StepBooks(s, e);
    hide AttemptsOk;
    match e
    case Boot(_, _) =>
    case Succeed => SuccessKeepsActive(s);
    case Fail => FailureKeepsActive(s);
    case Stage(c) =>
    case Reset(erased, committed) =>
    case PowerLoss =>
  }

  lemma {:induction false} TornCommitStores(s: State, e: Event)
    requires Inv(s) && s.torn && Commits(s, e)
    ensures !Legitimate(Step(s, e), Active(Step(s, e).committed))
  {
    assert s.pc.StageCommit? || s.pc.UnstageCommit?;
  }

  lemma {:induction false} RunBooks(s: State, es: seq<Event>)
    requires Bookkeeping(s)
    ensures Bookkeeping(Run(s, es))
    decreases es
  {
    hide Bookkeeping, Step;
    if es != [] {
      StepBooks(s, es[0]);
      RunBooks(Step(s, es[0]), es[1..]);
    }
  }

  predicate NeverCommitsTorn(s: State, es: seq<Event>)
    decreases es
  {
    es == [] || (!(s.torn && Commits(s, es[0])) && NeverCommitsTorn(Step(s, es[0]), es[1..]))
  }

  lemma {:induction false} LegitimateIffFrom(s: State, es: seq<Event>)
    requires Inv(s)
    ensures AlwaysLegitimate(s, es) <==> NeverCommitsTorn(s, es)
    decreases es
  {
    hide Step, Legitimate, Commits, Bookkeeping, ActiveOk;
    if es != [] {
      if s.torn && Commits(s, es[0]) {
        TornCommitStores(s, es[0]);
      } else {
        StepKeepsInv(s, es[0]);
        LegitimateIffFrom(Step(s, es[0]), es[1..]);
      }
    }
  }

  /** The state before event i of a run from a store. */
  function At(m: Store, es: seq<Event>, i: nat): (s: State)
    requires i <= |es|
  {
    Run(Start(m), es[..i])
  }

  predicate Undisturbed(es: seq<Event>, i: nat, j: nat) {
    forall k :: i < k < j && k < |es| ==> !Forgets(es[k])
  }

  /** Event i is the failure of a password write that leaves a foreign pair. */
  predicate TearsAt(m: Store, es: seq<Event>, i: nat) {
    i < |es| && es[i].Fail? && Tears(At(m, es, i))
  }

  lemma {:induction false} TornStep(s: State, e: Event)
    requires Bookkeeping(s)
    ensures Step(s, e).torn <==> (e.Fail? && Tears(s)) || (s.torn && !Forgets(e))
  {
    hide Tears;
    assert s.torn ==> !s.pc.SavePassword?;
    if Tears(s) {
      TearsWhere(s);
    }
  }

  lemma {:induction false} TearsWhere(s: State)
    requires Tears(s)
    ensures s.pc.SavePassword?
  {
  }

  /** Where a torn pair in the working copy comes from, in every run: a failed password write nothing has undone. */
  lemma {:induction false} TornComesFromFailedWrite(m: Store, es: seq<Event>)
    ensures Run(Start(m), es).torn <==> exists i: nat :: TearsAt(m, es, i) && Undisturbed(es, i, |es|)
    decreases es
  {
    hide Run, Tears, Bookkeeping, Step, Start;
    if es == [] {
      NotTornAtStart(m);
    } else {
      var n := |es| - 1;
      var fs, e := es[..n], es[n];
      assert es == fs + [e];
      RunSnoc(Start(m), fs, e);
      StartOk(m);
      RunBooks(Start(m), fs);
      TornStep(Run(Start(m), fs), e);
      TornComesFromFailedWrite(m, fs);
      assert forall i: nat :: i < n ==> es[..i] == fs[..i] && es[i] == fs[i];
      if i: nat :| TearsAt(m, fs, i) && Undisturbed(fs, i, n) {
        assert !Forgets(e) ==> TearsAt(m, es, i) && Undisturbed(es, i, |es|);
      }
      if i: nat :| TearsAt(m, es, i) && Undisturbed(es, i, |es|) {
        assert i < n ==> TearsAt(m, fs, i) && Undisturbed(fs, i, n) && !Forgets(e);
      }
      assert e.Fail? && Tears(Run(Start(m), fs)) ==> TearsAt(m, es, n) && Undisturbed(es, n, |es|);
    }
  }

  lemma {:induction false} NotTornAtStart(m: Store)
    ensures !Run(Start(m), []).torn
  {
  }

  lemma {:induction false} CommitsTornIff(s: State, es: seq<Event>)
    ensures NeverCommitsTorn(s, es) <==>
            forall j :: 0 <= j < |es| ==> !(Run(s, es[..j]).torn && Commits(Run(s, es[..j]), es[j]))
    decreases es
  {
    hide Step, Commits;
    if es != [] {
      var s', rest := Step(s, es[0]), es[1..];
      CommitsTornIff(s', rest);
      assert es[..0] == [];
      assert forall j :: 0 <= j < |rest| ==> es[..j + 1][1..] == rest[..j] && es[j + 1] == rest[j];
      assert forall j :: 0 <= j < |rest| ==> Run(s, es[..j + 1]) == Run(s', rest[..j]);
      if NeverCommitsTorn(s, es) {
        forall j | 0 <= j < |es| ensures !(Run(s, es[..j]).torn && Commits(Run(s, es[..j]), es[j])) {
          if j > 0 {
            assert Run(s, es[..j]) == Run(s', rest[..j - 1]);
          }
        }
      } else {
        if NeverCommitsTorn(s', rest) {
          assert Run(s, es[..0]) == s;
        } else {
          var j :| 0 <= j < |rest| && Run(s', rest[..j]).torn && Commits(Run(s', rest[..j]), rest[j]);
          assert Run(s, es[..j + 1]).torn;
        }
      }
    }
  }

  /**
   Some password write fails that leaves a foreign pair, and a later commit succeeds before a
   power loss or reset has thrown the working copy away.
   */
  ghost predicate StoresTornPair(m: Store, es: seq<Event>) {
    exists i: nat, j: nat ::
      i < j < |es| && TearsAt(m, es, i) && Undisturbed(es, i, j) && Commits(At(m, es, j), es[j])
  }

  /**
   Over every run of boots, stagings, failures, resets and power losses: the active record is
   at all times absent, the initial one, or a staged record that obtained an address, if and
   only if no torn pair is stored.
   */
  lemma {:induction false} ActiveIsLegitimateIff(m: Store, es: seq<Event>)
    ensures AlwaysLegitimate(Start(m), es) <==> !StoresTornPair(m, es)
  {
    hide Start, Run, AlwaysLegitimate, NeverCommitsTorn, Commits, TearsAt, Undisturbed, Inv;
    StartOk(m);
    LegitimateIffFrom(Start(m), es);
    CommitsTornIff(Start(m), es);
    forall j: nat | j < |es|
      ensures At(m, es, j).torn <==> exists i: nat :: i < j && TearsAt(m, es, i) && Undisturbed(es, i, j)
    {
      TornAt(m, es, j);
    }
    if StoresTornPair(m, es) {
      var i: nat, j: nat :| i < j < |es| && TearsAt(m, es, i) && Undisturbed(es, i, j) && Commits(At(m, es, j), es[j]);
      assert At(m, es, j).torn;
    } else {
      forall j | 0 <= j < |es| ensures !(At(m, es, j).torn && Commits(At(m, es, j), es[j])) {
        if At(m, es, j).torn {
          var i: nat :| i < j && TearsAt(m, es, i) && Undisturbed(es, i, j);
        }
      }
    }
  }

  lemma {:induction false} TornAt(m: Store, es: seq<Event>, j: nat)
    requires j <= |es|
    ensures At(m, es, j).torn <==> exists i: nat :: i < j && TearsAt(m, es, i) && Undisturbed(es, i, j)
  {
    hide Run, Start, Tears, Forgets;
    var fs := es[..j];
    TornComesFromFailedWrite(m, fs);
    assert forall i: nat :: i < j ==> fs[..i] == es[..i] && fs[i] == es[i];
    assert forall i: nat :: i < j ==> (TearsAt(m, fs, i) <==> TearsAt(m, es, i));
    assert forall i: nat :: i < j ==> (Undisturbed(fs, i, j) <==> Undisturbed(es, i, j));
  }

  /** In particular it is, as long as no commit follows a failed password write before a power loss or reset. */
  lemma {:induction false} NoCommitAfterFailedWrite(m: Store, es: seq<Event>)
    requires forall i: nat, j: nat :: i < j < |es| && es[i].Fail? && At(m, es, i).pc.SavePassword? && Undisturbed(es, i, j) ==>
               !Commits(At(m, es, j), es[j])
    ensures AlwaysLegitimate(Start(m), es)
  {
    hide Start, Run, AlwaysLegitimate, Commits, Undisturbed;
    ActiveIsLegitimateIff(m, es);
  }

  /** In every run, no staging is validated more than once, and only what was staged is ever validated. */
  lemma {:induction false} OneValidationPerStaging(m: Store, es: seq<Event>)
    ensures var s := Run(Start(m), es);
            && s.validated <= s.staged
            && forall i, j :: 0 <= i < j < |s.attempts| ==> s.attempts[i] != s.attempts[j]
  {
    hide Run, Start;
    StartOk(m);
    RunBooks(Start(m), es);
  }

  /** What a failed password write leaves for the next commit: the new name with the old record's password. */
  lemma {:induction false} TornPairMixes(s: State)
    requires Inv(s) && Tears(s)
    ensures var t := FailedStep(s);
            Active(t.working) == Some(Cred(s.pc.pending.ssid, s.committed[Password])) && t.committed == s.committed
  {
  }

  const HOME := Cred([104], [49, 49, 49, 49, 49, 49, 49, 49])
  const SHOP := Cred([115], [50, 50, 50, 50, 50, 50, 50, 50])
  const OPEN := Cred([111], [])

  const SHELF: Store := map[Ssid := HOME.ssid, Password := HOME.password,
                            PendingSsid := SHOP.ssid, PendingPassword := SHOP.password]

  const LOST_WRITE: seq<Event> := [Boot(true, true), Succeed, Succeed, Succeed] + [Succeed, Succeed, Fail, Succeed]
  const NEXT_STAGING: seq<Event> := [Stage(OPEN), Succeed, Succeed, Succeed]

  /**
   The property does fail without the condition: SHOP replaces HOME but its password cannot be
   written; the next staging commits the name of one network with the password of the other.
   */
  lemma {:induction false} TornRecordCanSurvive()
    ensures var s := Run(Start(SHELF), LOST_WRITE + NEXT_STAGING);
            && Active(s.committed) == Some(Cred(SHOP.ssid, HOME.password))
            && !Legitimate(s, Active(s.committed))
  {
    hide Run, Start;
    RunConcat(Start(SHELF), LOST_WRITE, NEXT_STAGING);
    AfterLostWrite();
    StagingCommits(Run(Start(SHELF), LOST_WRITE), OPEN);
  }

  /** Staging a record commits whatever else the working copy holds. */
  lemma {:induction false} StagingCommits(s: State, c: Cred)
    requires s.pc.Running? && Acceptable(c) && !(s.pc.online && WouldClearPassword(s.working, c))
    ensures var t := Run(s, [Stage(c), Succeed, Succeed, Succeed]);
            && t.committed == s.working[PendingSsid := c.ssid][PendingPassword := c.password]
            && t.initial == s.initial && t.validated == s.validated
  {
    hide Run, Step;
    RunFour(s, Stage(c), Succeed, Succeed, Succeed);
    RequestStep(s, Stage(c));
    var s1 := Step(s, Stage(c));
    StageStep(s1, true);
    var s2 := Step(s1, Succeed);
    StageStep(s2, true);
    StageStep(Step(s2, Succeed), true);
  }

  lemma {:induction false} AfterLostWrite()
    ensures var s := Run(Start(SHELF), LOST_WRITE);
            && s.pc == Running(true) && s.initial == Some(HOME) && s.validated == {SHOP}
            && s.working == map[Ssid := SHOP.ssid, Password := HOME.password]
  {
    hide Run, Start, Step;
    var s0 := Start(SHELF);
    RunConcat(s0, [Boot(true, true), Succeed, Succeed, Succeed], [Succeed, Succeed, Fail, Succeed]);
    AfterErasure();
    var s4 := Run(s0, [Boot(true, true), Succeed, Succeed, Succeed]);
    RunFour(s4, Succeed, Succeed, Fail, Succeed);
    EraseStep(s4, true);
    var s5 := Step(s4, Succeed);
    SaveStep(s5, true);
    var s6 := Step(s5, Succeed);
    assert s6.working == map[Ssid := SHOP.ssid, Password := HOME.password];
    SaveStep(s6, false);
    SaveStep(Step(s6, Fail), true);
  }

  lemma {:induction false} AfterErasure()
    ensures var s := Run(Start(SHELF), [Boot(true, true), Succeed, Succeed, Succeed]);
            && s.pc == Connecting(SHOP, 0, Some(HOME)) && s.initial == Some(HOME) && s.validated == {}
            && s.working == map[Ssid := HOME.ssid, Password := HOME.password]
  {
    hide Run;
    var s0 := Start(SHELF);
    RunFour(s0, Boot(true, true), Succeed, Succeed, Succeed);
    var s2 := Step(Step(s0, Boot(true, true)), Succeed);
    assert s2.pc == ErasePassword(SHOP, 0, Some(HOME));
    assert s2.working - {PendingPassword} == map[Ssid := HOME.ssid, Password := HOME.password];
  }

  lemma {:induction false} RunFour(s: State, a: Event, b: Event, c: Event, d: Event)
    ensures Run(s, [a, b, c, d]) == Step(Step(Step(Step(s, a), b), c), d)
  {
    hide Step;
    assert [a, b, c, d][1..] == [b, c, d] && [b, c, d][1..] == [c, d] && [c, d][1..] == [d] && [d][1..] == [];
    var s1 := Step(s, a);
    var s2 := Step(s1, b);
    var s3 := Step(s2, c);
    assert Run(s, [a, b, c, d]) == Run(s1, [b, c, d]);
    assert Run(s1, [b, c, d]) == Run(s2, [c, d]);
    assert Run(s2, [c, d]) == Run(s3, [d]);
    assert Run(s3, [d]) == Run(Step(s3, d), []);
  }

  lemma {:induction false} RunConcat(s: State, a: seq<Event>, b: seq<Event>)
    ensures Run(s, a + b) == Run(Run(s, a), b)
    decreases a
  {
    hide Step;
    if a == [] {
      assert a + b == b;
    } else {
      assert (a + b)[1..] == a[1..] + b;
      RunConcat(Step(s, a[0]), a[1..], b);
    }
  }

  /** Nothing but a promotion's own writes, a reset and a reboot changes the active record. */
  lemma {:induction false} OnlyPromotionTouchesActive(s: State, e: Event)
    requires Inv(s)
    requires !e.Reset? && !e.PowerLoss?
    requires !(e.Succeed? && (s.pc.SaveSsid? || s.pc.SavePassword?))
    ensures Active(Step(s, e).working) == Active(s.working)
  {
    match e
    case Boot(_, _) =>
    case Succeed =>
    case Fail =>
    case Stage(_) =>
  }

  /**
   A boot whose validation fails, from the pending record to the fallback: nothing changes but
   that the pending record is gone and its attempt is counted.
   */
  lemma {:induction false} FailedValidationKeepsActive(s: State, activeReadable: bool, savedConnects: bool)
    requires Bookkeeping(s) && s.pc.Off? && Pending(s.working).Some?
    ensures var t := Run(s, [Boot(true, activeReadable), Succeed, Succeed, Succeed] + [Fail, Outcome(savedConnects)]);
            && t.committed == s.committed - {PendingSsid, PendingPassword} && t.working == t.committed
            && Active(t.committed) == Active(s.committed) && t.validated == s.validated
            && t.pc == Running(savedConnects && activeReadable && Active(s.committed).Some?)
            && t.attempts == s.attempts + [s.committedId]
  {
    hide Run, Step;
    var erase := [Boot(true, activeReadable), Succeed, Succeed, Succeed];
    RunConcat(s, erase, [Fail, Outcome(savedConnects)]);
    RunFour(s, Boot(true, activeReadable), Succeed, Succeed, Succeed);
    ErasureRuns(s, activeReadable);
    var c := Run(s, erase);
    RunTwo(c, Fail, Outcome(savedConnects));
    EraseStep(c, false);
    SaveStep(Step(c, Fail), savedConnects);
  }

  lemma {:induction false} ErasureRuns(s: State, activeReadable: bool)
    requires Bookkeeping(s) && s.pc.Off? && Pending(s.working).Some?
    ensures var t := Step(Step(Step(Step(s, Boot(true, activeReadable)), Succeed), Succeed), Succeed);
            && t.committed == s.committed - {PendingSsid, PendingPassword} && t.working == t.committed
            && t.validated == s.validated && t.attempts == s.attempts + [s.committedId]
            && t.pc == Connecting(Pending(s.working).value, s.workingId, if activeReadable then Active(s.working) else None)
  {
    hide AttemptsOk, TornOk;
    var b := Step(s, Boot(true, activeReadable));
    var saved := if activeReadable then Active(s.working) else None;
    assert b.pc == EraseSsid(Pending(s.working).value, s.workingId, saved) && b.working == s.working;
    var e := Step(b, Succeed);
    assert e.pc == ErasePassword(b.pc.pending, b.pc.id, saved) && e.working == s.working - {PendingSsid};
    var f := Step(e, Succeed);
    assert f.pc == EraseCommit(b.pc.pending, b.pc.id, saved);
    assert f.working == s.working - {PendingSsid, PendingPassword};
  }

  lemma {:induction false} RunTwo(s: State, a: Event, b: Event)
    ensures Run(s, [a, b]) == Step(Step(s, a), b)
  {
    hide Step;
    assert [a, b][1..] == [b] && [b][1..] == [];
    assert Run(Step(s, a), [b]) == Run(Step(Step(s, a), b), []);
  }

  // ---------------------------------------------------------------- the operations

  lemma {:induction false} RunSnoc(s: State, es: seq<Event>, e: Event)
    ensures Run(s, es + [e]) == Step(Run(s, es), e)
  {
    hide Step;
    RunConcat(s, es, [e]);
    assert [e][1..] == [];
    assert Run(Run(s, es), [e]) == Run(Step(Run(s, es), e), []);
  }

  function Outcome(ok: bool): (e: Event) {
    if ok then Succeed else Fail
  }

  predicate SameHistory(s: State, t: State) {
    t.initial == s.initial && t.validated == s.validated && t.attempts == s.attempts
  }

  /** t is s but for the place and the working copy. */
  predicate Moved(s: State, t: State, pc: Pc, working: Store) {
    t.pc == pc && t.working == working && t.committed == s.committed && SameHistory(s, t)
  }

  predicate MovedAndCommitted(s: State, t: State, pc: Pc) {
    t.pc == pc && t.working == s.working && t.committed == s.working && SameHistory(s, t)
  }

  lemma {:induction false} StageStep(s: State, ok: bool)
    ensures var t := Step(s, Outcome(ok));
            && (s.pc.StageSsid? ==> Moved(s, t,
                  if ok then StagePassword(s.pc.cred, s.pc.online) else Running(s.pc.online),
                  if ok then s.working[PendingSsid := s.pc.cred.ssid] else s.working))
            && (s.pc.StagePassword? ==> Moved(s, t,
                  if ok then StageCommit(s.pc.cred, s.pc.online) else Running(s.pc.online),
                  if ok then s.working[PendingPassword := s.pc.cred.password] else s.working))
            && (s.pc.StageCommit? ==>
                  if ok then MovedAndCommitted(s, t, ScheduleRestart(s.pc.online))
                  else Moved(s, t, Running(s.pc.online), s.working))
            && (s.pc.ScheduleRestart? ==> Moved(s, t,
                  if ok || !s.pc.online then Running(s.pc.online) else UnstageSsid, s.working))
  {
  }

  lemma {:induction false} UnstageStep(s: State, ok: bool)
    ensures var t := Step(s, Outcome(ok));
            && (s.pc.UnstageSsid? ==> Moved(s, t, if ok then UnstagePassword else Running(true),
                  if ok then s.working - {PendingSsid} else s.working))
            && (s.pc.UnstagePassword? ==> Moved(s, t, if ok then UnstageCommit else Running(true),
                  if ok then s.working - {PendingPassword} else s.working))
            && (s.pc.UnstageCommit? ==>
                  if ok then MovedAndCommitted(s, t, Running(true)) else Moved(s, t, Running(true), s.working))
  {
  }

  lemma {:induction false} EraseStep(s: State, ok: bool)
    ensures var t := Step(s, Outcome(ok));
            && (s.pc.EraseSsid? ==> Moved(s, t,
                  if ok then ErasePassword(s.pc.pending, s.pc.id, s.pc.saved) else TrySaved(s.pc.saved),
                  if ok then s.working - {PendingSsid} else s.working))
            && (s.pc.ErasePassword? ==> Moved(s, t,
                  if ok then EraseCommit(s.pc.pending, s.pc.id, s.pc.saved) else TrySaved(s.pc.saved),
                  if ok then s.working - {PendingPassword} else s.working))
            && (s.pc.EraseCommit? ==>
                  if ok then MovedAndCommitted(s, t.(attempts := s.attempts), Connecting(s.pc.pending, s.pc.id, s.pc.saved))
                  else Moved(s, t, TrySaved(s.pc.saved), s.working))
            && (s.pc.Connecting? ==> Moved(s, t.(validated := s.validated),
                  if ok then SaveSsid(s.pc.pending, s.pc.saved) else TrySaved(s.pc.saved), s.working))
            && (s.pc.Connecting? ==> t.validated == if ok then s.validated + {s.pc.pending} else s.validated)
  {
  }

  lemma {:induction false} SaveStep(s: State, ok: bool)
    ensures var t := Step(s, Outcome(ok));
            && (s.pc.SaveSsid? ==> Moved(s, t,
                  if ok then SavePassword(s.pc.pending, s.pc.saved) else TrySaved(s.pc.saved),
                  if ok then s.working[Ssid := s.pc.pending.ssid] else s.working))
            && (s.pc.SavePassword? ==> Moved(s, t,
                  if ok then SaveCommit(s.pc.pending, s.pc.saved) else TrySaved(s.pc.saved),
                  if ok then s.working[Password := s.pc.pending.password] else s.working))
            && (s.pc.SaveCommit? ==>
                  if ok then MovedAndCommitted(s, t, Running(true)) else Moved(s, t, TrySaved(s.pc.saved), s.working))
            && (s.pc.TrySaved? ==> Moved(s, t, Running(ok && s.pc.saved.Some?), s.working))
  {
  }

  lemma {:induction false} RequestStep(s: State, e: Event)
    ensures var t := Step(s, e);
            && (e.Boot? && s.pc.Off? ==> t == Booted(s, e))
            && (e.Stage? && s.pc.Running? ==> Moved(s, t,
                  if Acceptable(e.cred) && !(s.pc.online && WouldClearPassword(s.working, e.cred))
                  then StageSsid(e.cred, s.pc.online) else s.pc, s.working))
  {
  }

  /** Which of the three NVS calls of an operation succeed; a call behind a failing one is not made. */
  datatype Calls = Calls(first: bool, second: bool, commit: bool)

  predicate AllOk(c: Calls) {
    c.first && c.second && c.commit
  }

  /** The device: every operation it performs is a stretch of a run of the machine above. */
  class Device {
    var working: Store
    var committed: Store
    ghost const start: Store
    ghost var state: State
    ghost var trace: seq<Event>

    ghost predicate Valid()
      reads this
    {
      state == Run(Start(start), trace) && working == state.working && committed == state.committed
    }

    constructor (stored: Store)
      ensures Valid() && state.pc.Off? && committed == stored && start == stored && trace == []
    {
      working, committed, start := stored, stored, stored;
      state, trace := Start(stored), [];
    }

    ghost method Note(e: Event)
      requires state == Run(Start(start), trace)
      modifies this`state, this`trace
      ensures state == Run(Start(start), trace)
      ensures state == Step(old(state), e) && trace == old(trace) + [e]
    {
      hide Step, Run, Start;
      RunSnoc(Start(start), trace, e);
      state, trace := Step(state, e), trace + [e];
    }

    /** Power loss: uncommitted writes are gone. */
    method Crash()
      requires Valid()
      modifies this
      ensures Valid() && state.pc.Off? && committed == old(committed) && working == committed
    {
      hide Run, Start;
      working := committed;
      Note(PowerLoss);
    }

    /** wifi_pending_credentials_save: both keys and a commit, stopping at the first failure. */
    method SavePending(c: Cred, calls: Calls) returns (ok: bool)
      requires Valid() && state.pc.StageSsid? && state.pc.cred == c
      modifies this
      ensures Valid() && (ok <==> AllOk(calls))
      ensures ok ==> state.pc == ScheduleRestart(old(state.pc.online))
      ensures ok ==> working == old(working)[PendingSsid := c.ssid][PendingPassword := c.password]
      ensures committed == if ok then working else old(committed)
      ensures !ok ==> state.pc == Running(old(state.pc.online))
      ensures Active(working) == old(Active(working))
    {
      hide Run, Start, Step;
      if calls.first {
        working := working[PendingSsid := c.ssid];
      }
      StageStep(state, calls.first);
      Note(Outcome(calls.first));
      if !calls.first {
        return false;
      }
      if calls.second {
        working := working[PendingPassword := c.password];
      }
      StageStep(state, calls.second);
      Note(Outcome(calls.second));
      if !calls.second {
        return false;
      }
      if calls.commit {
        committed := working;
      }
      StageStep(state, calls.commit);
      Note(Outcome(calls.commit));
      ok := calls.commit;
    }

    /** wifi_pending_credentials_erase, before a validation; a missing key is no failure. */
    method ErasePending(calls: Calls) returns (ok: bool)
      requires Valid() && state.pc.EraseSsid?
      modifies this
      ensures Valid() && (ok <==> AllOk(calls))
      ensures ok ==> working == old(working) - {PendingSsid, PendingPassword} && committed == working
      ensures ok ==> var pc := old(state.pc); state.pc == Connecting(pc.pending, pc.id, pc.saved)
      ensures !ok ==> committed == old(committed) && state.pc == TrySaved(old(state.pc.saved))
      ensures Active(working) == old(Active(working))
    {
      hide Run, Start, Step;
      if calls.first {
        working := working - {PendingSsid};
      }
      EraseStep(state, calls.first);
      Note(Outcome(calls.first));
      if !calls.first {
        return false;
      }
      if calls.second {
        working := working - {PendingPassword};
        assert working == old(working) - {PendingSsid, PendingPassword};
      }
      EraseStep(state, calls.second);
      Note(Outcome(calls.second));
      if !calls.second {
        return false;
      }
      if calls.commit {
        committed := working;
      }
      EraseStep(state, calls.commit);
      Note(Outcome(calls.commit));
      ok := calls.commit;
    }

    /** wifi_credentials_save, promoting a validated record. */
    method SaveActive(p: Cred, calls: Calls) returns (ok: bool)
      requires Valid() && state.pc.SaveSsid? && state.pc.pending == p
      modifies this
      ensures Valid() && (ok <==> AllOk(calls))
      ensures ok ==> working == old(working)[Ssid := p.ssid][Password := p.password] && committed == working
      ensures ok ==> state.pc == Running(true)
      ensures !ok ==> committed == old(committed) && state.pc == TrySaved(old(state.pc.saved))
    {
      hide Run, Start, Step;
      if calls.first {
        working := working[Ssid := p.ssid];
      }
      SaveStep(state, calls.first);
      Note(Outcome(calls.first));
      if !calls.first {
        return false;
      }
      if calls.second {
        working := working[Password := p.password];
      }
      SaveStep(state, calls.second);
      Note(Outcome(calls.second));
      if !calls.second {
        return false;
      }
      if calls.commit {
        committed := working;
      }
      SaveStep(state, calls.commit);
      Note(Outcome(calls.commit));
      ok := calls.commit;
    }

    /** Taking a staged record back when no restart could be scheduled; its result is ignored. */
    method Unstage(calls: Calls)
      requires Valid() && state.pc.UnstageSsid?
      modifies this
      ensures Valid() && state.pc == Running(true)
      ensures Active(working) == old(Active(working))
      ensures AllOk(calls) ==> working == old(working) - {PendingSsid, PendingPassword} && committed == working
      ensures !AllOk(calls) ==> committed == old(committed)
    {
      hide Run, Start, Step;
      if calls.first {
        working := working - {PendingSsid};
      }
      UnstageStep(state, calls.first);
      Note(Outcome(calls.first));
      if !calls.first {
        return;
      }
      if calls.second {
        working := working - {PendingPassword};
        assert working == old(working) - {PendingSsid, PendingPassword};
      }
      UnstageStep(state, calls.second);
      Note(Outcome(calls.second));
      if !calls.second {
        return;
      }
      if calls.commit {
        committed := working;
      }
      UnstageStep(state, calls.commit);
      Note(Outcome(calls.commit));
    }

    /**
     A boot: validate a pending record, else fall back to the saved one. The active record
     changes only by a promotion in which every call succeeds.
     */
    method Boot(pendingReadable: bool, activeReadable: bool, erase: Calls, connected: bool, save: Calls,
                savedConnected: bool)
      returns (online: bool)
      requires Valid() && state.pc.Off? && working == committed
      modifies this
      ensures Valid() && state.pc == Running(online)
      ensures var pending := if pendingReadable then Pending(old(committed)) else None;
              var bare := old(committed) - {PendingSsid, PendingPassword};
              if pending.Some? && AllOk(erase) then
                if connected && AllOk(save) then
                  online && committed == bare[Ssid := pending.value.ssid][Password := pending.value.password]
                else committed == bare
              else committed == old(committed)
      ensures !(pendingReadable && Pending(old(committed)).Some? && AllOk(erase) && connected && AllOk(save)) ==>
                (online <==> activeReadable && Active(old(committed)).Some? && savedConnected)
    {
      hide Run, Start, Step, Active, Pending, Read, AllOk, SameHistory;
      var pending := if pendingReadable then Pending(working) else None;
      var saved := if activeReadable then Active(working) else None;
      RequestStep(state, Event.Boot(pendingReadable, activeReadable));
      Note(Event.Boot(pendingReadable, activeReadable));
      if pending.Some? {
        var erased := ErasePending(erase);
        if erased {
          EraseStep(state, connected);
          Note(Outcome(connected));
          if connected {
            var stored := SaveActive(pending.value, save);
            if stored {
              return true;
            }
          }
        }
      }
      SaveStep(state, savedConnected);
      Note(Outcome(savedConnected));
      online := saved.Some? && savedConnected;
    }

    /**
     Staging from the management page of a connected device, or from the setup portal of one
     that is not. The active record is left alone whatever fails.
     */
    method StageCredentials(c: Cred, online: bool, calls: Calls, restart: bool, undo: Calls) returns (ok: bool)
      requires Valid() && state.pc == Running(online)
      modifies this
      ensures Valid() && state.pc == Running(online)
      ensures Active(working) == old(Active(working))
      ensures var fits := 0 < |c.ssid| <= 32 && (c.password == [] || 8 <= |c.password| <= 63);
              var active := old(Active(working));
              var clears := active.Some? && active.value.ssid == c.ssid && active.value.password != [] && c.password == [];
              && (ok <==> fits && !(online && clears) && AllOk(calls) && restart)
              && (!fits || (online && clears) ==> working == old(working) && committed == old(committed))
      ensures ok ==> Pending(committed) == Some(c) && committed == working
    {
      hide Run, Start, Step, Active, Acceptable, WouldClearPassword, Read;
      RefusalIs(working, c);
      var refused := !Acceptable(c) || (online && WouldClearPassword(working, c));
      RequestStep(state, Stage(c));
      Note(Stage(c));
      if refused {
        return false;
      }
      var saved := SavePending(c, calls);
      if !saved {
        return false;
      }
      PendingStored(old(working), c);
      StageStep(state, restart);
      Note(Outcome(restart));
      if !restart && online {
        Unstage(undo);
      }
      ok := restart;
    }
  }
}
