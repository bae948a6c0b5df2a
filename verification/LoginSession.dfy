/**
 The browser session and the login throttle of src/management-session.c, with the login
 handler of src/management-auth-routes.c on top. Times are microseconds since boot and never
 go back; the HTTP server handles one request at a time.
 */
module LoginSession {
  import opened CBytes

  const SECOND := 1000000
  const MAX_FAILURES := 5
  const COOLDOWN := 60 * SECOND
  const IDLE := 900 * SECOND
  const TOKEN_LENGTH := 64

  // ---------------------------------------------------------------- the login throttle

  datatype Throttle = Throttle(failures: nat, cooldownUntil: int)

  datatype Attempt = Attempt(now: int, valid: bool)

  datatype Outcome = Throttled(retryAfter: int) | Rejected | CooldownStarted | LoggedIn

  function RetryAfter(t: Throttle, now: int): (seconds: nat) {
    if now < t.cooldownUntil then (t.cooldownUntil - now + SECOND - 1) / SECOND else 0
  }

  function AfterFailure(t: Throttle, now: int): (r: Throttle) {
    if t.failures + 1 >= MAX_FAILURES then Throttle(0, now + COOLDOWN) else t.(failures := t.failures + 1)
  }

  /** One request to the login handler. */
  function Login(t: Throttle, a: Attempt): (r: (Throttle, Outcome)) {
    var retry := RetryAfter(t, a.now);
    if retry > 0 then (t, Throttled(retry))
    else if a.valid then (Throttle(0, 0), LoggedIn)
    else
      var t' := AfterFailure(t, a.now);
      (t', if t.failures + 1 >= MAX_FAILURES then CooldownStarted else Rejected)
  }

  function LoginRun(t: Throttle, attempts: seq<Attempt>): (r: Throttle)
    decreases attempts
  {
    if attempts == [] then t else LoginRun(Login(t, attempts[0]).0, attempts[1..])
  }

  function Outcomes(t: Throttle, attempts: seq<Attempt>): (r: seq<Outcome>)
    ensures |r| == |attempts|
    decreases attempts
  {
    if attempts == [] then []
    else
      var step := Login(t, attempts[0]);
      [step.1] + Outcomes(step.0, attempts[1..])
  }

  /** Wrong passwords that were checked and counted. */
  function Counted(outcomes: seq<Outcome>): (n: nat) {
    if outcomes == [] then 0
    else (if outcomes[0].Rejected? || outcomes[0].CooldownStarted? then 1 else 0) + Counted(outcomes[1..])
  }

  predicate InOrder(attempts: seq<Attempt>) {
    forall i, j :: 0 <= i < j < |attempts| ==> attempts[i].now <= attempts[j].now
  }

  predicate Before(attempts: seq<Attempt>, deadline: int) {
    forall i :: 0 <= i < |attempts| ==> attempts[i].now < deadline
  }

  lemma {:induction false} RetryPositive(t: Throttle, now: int)
    ensures RetryAfter(t, now) > 0 <==> now < t.cooldownUntil
  {
  }

  /** The advertised wait is the shortest whole number of seconds after which an attempt is checked again. */
  lemma {:induction false} RetryAfterIsExact(t: Throttle, now: int, seconds: nat)
    ensures RetryAfter(t, now + seconds * SECOND) == 0 <==> seconds >= RetryAfter(t, now)
  {
    var r := RetryAfter(t, now);
    RetryPositive(t, now + seconds * SECOND);
    if now < t.cooldownUntil {
      var wait := t.cooldownUntil - now;
      assert (r - 1) * SECOND < wait <= r * SECOND;
      if seconds >= r {
        assert seconds * SECOND >= r * SECOND;
      } else {
        assert seconds * SECOND <= (r - 1) * SECOND;
      }
    }
  }

  /** During a cooldown nothing is checked: not even the right password. */
  lemma {:induction false} CooldownBlocks(t: Throttle, attempts: seq<Attempt>)
    requires Before(attempts, t.cooldownUntil)
    ensures LoginRun(t, attempts) == t && Counted(Outcomes(t, attempts)) == 0
    ensures forall i :: 0 <= i < |attempts| ==> Outcomes(t, attempts)[i].Throttled?
    decreases attempts
  {
    if attempts != [] {
      RetryPositive(t, attempts[0].now);
      CooldownBlocks(t, attempts[1..]);
    }
  }

  lemma {:induction false} WindowBound(t: Throttle, attempts: seq<Attempt>, start: int)
    requires t.failures < MAX_FAILURES
    requires forall i :: 0 <= i < |attempts| ==> start <= attempts[i].now
    requires Before(attempts, start + COOLDOWN)
    requires LoggedIn !in Outcomes(t, attempts)
    ensures Counted(Outcomes(t, attempts)) + t.failures <= MAX_FAILURES
    decreases attempts
  {
    hide RetryAfter;
    if attempts != [] {
      var step := Login(t, attempts[0]);
      var rest := Outcomes(step.0, attempts[1..]);
      assert Outcomes(t, attempts) == [step.1] + rest;
      assert forall o :: o in rest ==> o in Outcomes(t, attempts);
      if step.1.CooldownStarted? {
        CooldownBlocks(step.0, attempts[1..]);
      } else {
        assert step.1 in Outcomes(t, attempts);
        WindowBound(step.0, attempts[1..], start);
      }
    }
  }

  lemma {:induction false} FailuresStayBelow(t: Throttle, attempts: seq<Attempt>)
    requires t.failures < MAX_FAILURES
    ensures LoginRun(t, attempts).failures < MAX_FAILURES
    decreases attempts
  {
    if attempts != [] {
      FailuresStayBelow(Login(t, attempts[0]).0, attempts[1..]);
    }
  }

  lemma {:induction false} OutcomesSplit(t: Throttle, attempts: seq<Attempt>, i: nat)
    requires i <= |attempts|
    ensures Outcomes(t, attempts)[i..] == Outcomes(LoginRun(t, attempts[..i]), attempts[i..])
    decreases i
  {
    hide Login;
    if i == 0 {
      assert attempts[..0] == [] && attempts[0..] == attempts;
    } else {
      var step := Login(t, attempts[0]);
      OutcomesSplit(step.0, attempts[1..], i - 1);
      assert attempts[..i][1..] == attempts[1..][..i - 1];
      assert attempts[i..] == attempts[1..][i - 1..];
      assert Outcomes(t, attempts)[i..] == Outcomes(step.0, attempts[1..])[i - 1..];
    }
  }

  lemma {:induction false} OutcomesPrefix(t: Throttle, attempts: seq<Attempt>, n: nat)
    requires n <= |attempts|
    ensures Outcomes(t, attempts[..n]) == Outcomes(t, attempts)[..n]
    decreases attempts
  {
    hide Login;
    if n > 0 {
      assert attempts[..n][1..] == attempts[1..][..n - 1];
      OutcomesPrefix(Login(t, attempts[0]).0, attempts[1..], n - 1);
    }
  }

  /**
   However the attempts fall, any stretch of them that takes less than a minute and logs nobody
   in contains at most five checked wrong passwords.
   */
  lemma {:induction false} FiveFailuresPerMinute(attempts: seq<Attempt>, i: nat, j: nat)
    requires InOrder(attempts) && i < j <= |attempts|
    requires attempts[j - 1].now < attempts[i].now + 60_000_000
    requires LoggedIn !in Outcomes(Throttle(0, 0), attempts)[i..j]
    ensures Counted(Outcomes(Throttle(0, 0), attempts)[i..j]) <= 5
  {
    hide Outcomes, LoginRun, Login;
    var start := Throttle(0, 0);
    var window := attempts[i..j];
    var t := LoginRun(start, attempts[..i]);
    FailuresStayBelow(start, attempts[..i]);
    OutcomesPrefix(start, attempts, j);
    OutcomesSplit(start, attempts[..j], i);
    assert attempts[..j][..i] == attempts[..i] && attempts[..j][i..] == window;
    assert Outcomes(start, attempts)[i..j] == Outcomes(start, attempts[..j])[i..];
    assert forall k :: 0 <= k < |window| ==> window[k] == attempts[i + k];
    WindowBound(t, window, attempts[i].now);
  }

  /** Checked wrong passwords since the last login or the start of the last cooldown. */
  function Tally(outcomes: seq<Outcome>): (n: nat) {
    if outcomes == [] then 0
    else
      var rest := outcomes[..|outcomes| - 1];
      match outcomes[|outcomes| - 1]
      case Throttled(_) => Tally(rest)
      case Rejected => Tally(rest) + 1
      case _ => 0
  }

  /** The outcome number k started a cooldown that an attempt at this time still falls into. */
  predicate Cooling(attempts: seq<Attempt>, outcomes: seq<Outcome>, k: int, now: int) {
    0 <= k < |outcomes| <= |attempts| && outcomes[k] == CooldownStarted && now < attempts[k].now + 60_000_000
  }

  /** What the next attempt gets, in terms of the attempts and outcomes before it. */
  ghost predicate Lawful(attempts: seq<Attempt>, outcomes: seq<Outcome>, a: Attempt, o: Outcome) {
    && (o.Throttled? <==> exists k :: Cooling(attempts, outcomes, k, a.now))
    && (o.Throttled? ==> exists k :: Cooling(attempts, outcomes, k, a.now) &&
                            (o.retryAfter - 1) * 1_000_000 < attempts[k].now + 60_000_000 - a.now <= o.retryAfter * 1_000_000)
    && (!o.Throttled? ==> (o == LoggedIn <==> a.valid))
    && (!o.Throttled? && !a.valid ==> o == if Tally(outcomes) == 4 then CooldownStarted else Rejected)
  }

  /** The throttle's two numbers, in the same terms. */
  ghost predicate Explained(attempts: seq<Attempt>, outcomes: seq<Outcome>, t: Throttle) {
    && |outcomes| == |attempts| && t.failures == Tally(outcomes) < 5
    && (t.cooldownUntil != 0 ==> exists k :: Ends(attempts, outcomes, k, t.cooldownUntil))
    && forall k, end :: Ends(attempts, outcomes, k, end) ==>
                          end <= t.cooldownUntil || end <= attempts[|attempts| - 1].now
  }

  predicate Ends(attempts: seq<Attempt>, outcomes: seq<Outcome>, k: int, end: int) {
    0 <= k < |outcomes| <= |attempts| && outcomes[k] == CooldownStarted && end == attempts[k].now + 60_000_000
  }

  lemma {:induction false} NextLawful(attempts: seq<Attempt>, outcomes: seq<Outcome>, t: Throttle, a: Attempt)
    requires Explained(attempts, outcomes, t) && 0 <= a.now && InOrder(attempts + [a])
    ensures Lawful(attempts, outcomes, a, Login(t, a).1)
  {
    hide Tally;
    var o := Login(t, a).1;
    RetryPositive(t, a.now);
    if attempts != [] {
      assert (attempts + [a])[|attempts| - 1].now <= (attempts + [a])[|attempts|].now;
    }
    if k :| Cooling(attempts, outcomes, k, a.now) {
      assert Ends(attempts, outcomes, k, attempts[k].now + 60_000_000);
    }
    if a.now < t.cooldownUntil {
      var k :| Ends(attempts, outcomes, k, t.cooldownUntil);
      var r := RetryAfter(t, a.now);
      assert Cooling(attempts, outcomes, k, a.now) && (r - 1) * 1_000_000 < t.cooldownUntil - a.now <= r * 1_000_000;
    }
  }

  lemma {:induction false} NextExplained(attempts: seq<Attempt>, outcomes: seq<Outcome>, t: Throttle, a: Attempt)
    requires Explained(attempts, outcomes, t) && 0 <= a.now && InOrder(attempts + [a])
    ensures var step := Login(t, a); Explained(attempts + [a], outcomes + [step.1], step.0)
  {
    var step := Login(t, a);
    var more, os, t', n := attempts + [a], outcomes + [step.1], step.0, |attempts|;
    RetryPositive(t, a.now);
    assert os[..n] == outcomes && os[n] == step.1 && more[n] == a;
    if t'.cooldownUntil != 0 {
      if step.1.CooldownStarted? {
        assert Ends(more, os, n, t'.cooldownUntil);
      } else {
        var k :| Ends(attempts, outcomes, k, t.cooldownUntil);
        assert Ends(more, os, k, t'.cooldownUntil);
      }
    }
    forall k, end | Ends(more, os, k, end) ensures end <= t'.cooldownUntil || end <= a.now {
      if k < n {
        assert Ends(attempts, outcomes, k, end);
        assert more[n - 1].now <= more[n].now;
      }
    }
  }

  lemma {:induction false} AlwaysExplained(attempts: seq<Attempt>)
    requires InOrder(attempts) && forall k :: 0 <= k < |attempts| ==> 0 <= attempts[k].now
    ensures Explained(attempts, Outcomes(Throttle(0, 0), attempts), LoginRun(Throttle(0, 0), attempts))
    decreases attempts
  {
    hide Explained, Login;
    var start := Throttle(0, 0);
    if attempts == [] {
      NothingYet();
    } else {
      var n := |attempts| - 1;
      var a := attempts[n];
      assert attempts == attempts[..n] + [a];
      AlwaysExplained(attempts[..n]);
      NextExplained(attempts[..n], Outcomes(start, attempts[..n]), LoginRun(start, attempts[..n]), a);
      RunSnoc(start, attempts[..n], a);
    }
  }

  lemma {:induction false} NothingYet()
    ensures Explained([], [], Throttle(0, 0))
  {
  }

  lemma {:induction false} RunSnoc(t: Throttle, attempts: seq<Attempt>, a: Attempt)
    ensures var step := Login(LoginRun(t, attempts), a);
            && LoginRun(t, attempts + [a]) == step.0
            && Outcomes(t, attempts + [a]) == Outcomes(t, attempts) + [step.1]
    decreases attempts
  {
    hide Login;
    if attempts == [] {
      assert attempts + [a] == [a] && [a][1..] == [];
    } else {
      assert (attempts + [a])[1..] == attempts[1..] + [a];
      RunSnoc(Login(t, attempts[0]).0, attempts[1..], a);
    }
  }

  /**
   Every login attempt since boot. It is throttled exactly when it comes less than a minute after
   an attempt that started a cooldown, and told the whole seconds left, rounded up. Otherwise it
   logs in exactly when the password is right, and a wrong one starts a cooldown exactly when it
   is the fifth checked wrong one since the last login or the start of the last cooldown.
   */
  lemma {:induction false} EveryAttempt(attempts: seq<Attempt>, i: nat)
    requires InOrder(attempts) && i < |attempts| && forall k :: 0 <= k < |attempts| ==> 0 <= attempts[k].now
    ensures var outcomes := Outcomes(Throttle(0, 0), attempts);
            Lawful(attempts[..i], outcomes[..i], attempts[i], outcomes[i])
  {
    hide Explained, Login, Lawful, Outcomes, LoginRun;
    var start := Throttle(0, 0);
    var t := LoginRun(start, attempts[..i]);
    AlwaysExplained(attempts[..i]);
    assert attempts[..i + 1] == attempts[..i] + [attempts[i]];
    NextLawful(attempts[..i], Outcomes(start, attempts[..i]), t, attempts[i]);
    RunSnoc(start, attempts[..i], attempts[i]);
    OutcomesPrefix(start, attempts, i);
    OutcomesPrefix(start, attempts, i + 1);
    assert Outcomes(start, attempts)[..i + 1][i] == Outcomes(start, attempts)[i];
  }

  class LoginThrottle {
    var failures: nat
    var cooldownUntil: int

    ghost function Value(): (t: Throttle)
      reads this
    {
      Throttle(failures, cooldownUntil)
    }

    constructor ()
      ensures Value() == Throttle(0, 0)
    {
      failures, cooldownUntil := 0, 0;
    }

    method RetryAfterSeconds(now: int) returns (retry: nat)
      ensures retry == RetryAfter(Value(), now)
    {
      retry := 0;
      if now < cooldownUntil {
        retry := (cooldownUntil - now + SECOND - 1) / SECOND;
      }
    }

    method RecordFailure(now: int) returns (started: bool)
      modifies this
      ensures Value() == AfterFailure(old(Value()), now)
      ensures started <==> old(failures) + 1 >= MAX_FAILURES
    {
      started := false;
      failures := failures + 1;
      if failures >= MAX_FAILURES {
        failures, cooldownUntil, started := 0, now + COOLDOWN, true;
      }
    }

    method RecordSuccess()
      modifies this
      ensures Value() == Throttle(0, 0)
    {
      failures, cooldownUntil := 0, 0;
    }

    method HandleLogin(now: int, valid: bool) returns (outcome: Outcome)
      modifies this
      ensures (Value(), outcome) == Login(old(Value()), Attempt(now, valid))
    {
      var retry := RetryAfterSeconds(now);
      if retry > 0 {
        return Throttled(retry);
      }
      if !valid {
        var started := RecordFailure(now);
        return if started then CooldownStarted else Rejected;
      }
      RecordSuccess();
      outcome := LoggedIn;
    }
  }

  // ---------------------------------------------------------------- the session

  datatype Session = Session(active: bool, cookie: seq<byte>, last: int)

  const NO_SESSION := Session(false, [], 0)

  datatype Event =
    | Start(now: int, token: seq<byte>)
    | Clear(now: int)
    | Request(now: int, value: Option<seq<byte>>, refresh: bool)

  /** The request names the live session. */
  predicate Authorized(s: Session, value: Option<seq<byte>>, now: int) {
    && value.Some? && |value.value| == TOKEN_LENGTH
    && s.active && now - s.last <= IDLE && value.value == s.cookie
  }

  function Next(s: Session, e: Event): (r: Session) {
    match e
    case Start(now, token) => Session(true, token, now)
    case Clear(_) => NO_SESSION
    case Request(now, value, refresh) =>
      if value.None? || |value.value| != TOKEN_LENGTH then s
      else if Authorized(s, value, now) then if refresh then s.(last := now) else s
      else if s.active && now - s.last > IDLE then NO_SESSION
      else s
  }

  function After(s: Session, es: seq<Event>): (r: Session)
    decreases es
  {
    if es == [] then s else After(Next(s, es[0]), es[1..])
  }

  predicate Ordered(es: seq<Event>) {
    forall i, j :: 0 <= i < j < |es| ==> es[i].now <= es[j].now
  }

  lemma {:induction false} AfterSnoc(s: Session, es: seq<Event>, e: Event)
    ensures After(s, es + [e]) == Next(After(s, es), e)
    decreases es
  {
    hide Next;
    if es == [] {
      assert (es + [e])[1..] == [];
    } else {
      assert (es + [e])[1..] == es[1..] + [e];
      AfterSnoc(Next(s, es[0]), es[1..], e);
    }
  }

  /** Event i of the run is a request that was let in. */
  predicate LetIn(es: seq<Event>, i: nat) {
    i < |es| && es[i].Request? && Authorized(After(NO_SESSION, es[..i]), es[i].value, es[i].now)
  }

  /** Event k opened the session with this token, or renewed it as a refreshing request. */
  predicate Renews(es: seq<Event>, k: nat, token: seq<byte>) {
    k < |es| &&
    (es[k] == Start(es[k].now, token) || (LetIn(es, k) && es[k].refresh && es[k].value == Some(token)))
  }

  predicate NothingEndsIt(es: seq<Event>, from: nat, to: nat) {
    forall k :: from < k < to && k < |es| ==> es[k].Request?
  }

  /** The session on record was renewed by some event of the run, at its time of last activity. */
  ghost predicate Backed(es: seq<Event>, s: Session) {
    s.active ==> exists k: nat :: Renews(es, k, s.cookie) && es[k].now == s.last && NothingEndsIt(es, k, |es|)
  }

  lemma {:induction false} RenewsLater(es: seq<Event>, e: Event, k: nat, token: seq<byte>)
    requires Renews(es, k, token)
    ensures Renews(es + [e], k, token)
  {
    assert (es + [e])[..k] == es[..k];
  }

  lemma {:induction false} StepBacked(es: seq<Event>, e: Event, s: Session)
    requires s == After(NO_SESSION, es) && Backed(es, s)
    ensures Backed(es + [e], Next(s, e))
  {
    var s' := Next(s, e);
    var fs := es + [e];
    if s'.active {
      assert fs[..|es|] == es && fs[|es|] == e;
      if e.Start? || (e.Request? && Authorized(s, e.value, e.now) && e.refresh) {
        assert Renews(fs, |es|, s'.cookie) && NothingEndsIt(fs, |es|, |fs|);
      } else {
        var k: nat :| Renews(es, k, s.cookie) && es[k].now == s.last && NothingEndsIt(es, k, |es|);
        RenewsLater(es, e, k, s.cookie);
        assert NothingEndsIt(fs, k, |fs|);
      }
    }
  }

  lemma {:induction false} AlwaysBacked(es: seq<Event>)
    ensures Backed(es, After(NO_SESSION, es))
    decreases es
  {
    hide Backed, Next;
    if es == [] {
      assert Backed([], NO_SESSION) by {
        NoSessionBacked();
      }
    } else {
      var n := |es| - 1;
      assert es == es[..n] + [es[n]];
      AlwaysBacked(es[..n]);
      AfterSnoc(NO_SESSION, es[..n], es[n]);
      StepBacked(es[..n], es[n], After(NO_SESSION, es[..n]));
    }
  }

  lemma {:induction false} NoSessionBacked()
    ensures Backed([], NO_SESSION)
  {
  }

  /**
   A request is let in only within fifteen minutes of the event that opened the session with
   its token or of a refreshing request with that token, with no new session and no sign-out
   in between.
   */
  lemma {:induction false} LetInWithinFifteenMinutes(es: seq<Event>, i: nat)
    requires LetIn(es, i)
    ensures exists k: nat :: k < i && Renews(es, k, es[i].value.value) && es[i].now - es[k].now <= 900_000_000 &&
                        NothingEndsIt(es, k, i)
  {
    hide After, Next;
    var s := After(NO_SESSION, es[..i]);
    AlwaysBacked(es[..i]);
    var k: nat :| Renews(es[..i], k, s.cookie) && es[..i][k].now == s.last && NothingEndsIt(es[..i], k, i);
    assert es[..i][..k] == es[..k];
    assert Renews(es, k, s.cookie);
    assert forall m :: 0 <= m < i ==> es[..i][m] == es[m];
    assert NothingEndsIt(es, k, i);
  }

  lemma {:induction false} OpenAfter(es: seq<Event>, k: nat, token: seq<byte>)
    requires Renews(es, k, token)
    ensures After(NO_SESSION, es[..k + 1]) == Session(true, token, es[k].now)
  {
    hide After;
    assert es[..k + 1] == es[..k] + [es[k]];
    AfterSnoc(NO_SESSION, es[..k], es[k]);
  }

  lemma {:induction false} StillOpen(es: seq<Event>, k: nat, token: seq<byte>, i: nat, j: nat)
    requires Ordered(es) && k < j <= i < |es| && Renews(es, k, token) && NothingEndsIt(es, k, i)
    requires es[i].now - es[k].now <= IDLE
    ensures var s := After(NO_SESSION, es[..j]); s.active && s.cookie == token && es[k].now <= s.last
    decreases j
  {
    hide After, Renews, NothingEndsIt;
    if j == k + 1 {
      OpenAfter(es, k, token);
    } else {
      StillOpen(es, k, token, i, j - 1);
      assert es[..j] == es[..j - 1] + [es[j - 1]];
      AfterSnoc(NO_SESSION, es[..j - 1], es[j - 1]);
      BetweenAreRequests(es, k, i, j - 1);
      assert es[k].now <= es[j - 1].now <= es[i].now;
    }
  }

  lemma {:induction false} BetweenAreRequests(es: seq<Event>, k: nat, i: nat, j: nat)
    requires NothingEndsIt(es, k, i) && k < j < i <= |es|
    ensures es[j].Request?
  {
  }

  /**
   And every such request is: with a token of 64 bytes, within fifteen minutes of the event that
   opened the session with it or of a refreshing request with it that was let in, and with no new
   session and no sign-out in between.
   */
  lemma {:induction false} LetInIff(es: seq<Event>, i: nat)
    requires Ordered(es) && i < |es| && es[i].Request?
    ensures LetIn(es, i) <==>
            && es[i].value.Some? && |es[i].value.value| == 64
            && exists k: nat :: k < i && Renews(es, k, es[i].value.value) && es[i].now - es[k].now <= 900_000_000 &&
                                NothingEndsIt(es, k, i)
  {
    hide After, Next, Renews, NothingEndsIt;
    if LetIn(es, i) {
      LetInWithinFifteenMinutes(es, i);
    }
    if es[i].value.Some? {
      var token := es[i].value.value;
      if k: nat :| k < i && Renews(es, k, token) && es[i].now - es[k].now <= 900_000_000 && NothingEndsIt(es, k, i) {
        StillOpen(es, k, token, i, i);
      }
    }
  }

  /** A request with a token of the right length leaves no session behind that has run out. */
  lemma {:induction false} StaleSessionDropped(es: seq<Event>, i: nat)
    requires i < |es| && es[i].Request? && es[i].value.Some? && |es[i].value.value| == 64
    ensures var s := After(NO_SESSION, es[..i + 1]); s.active ==> es[i].now - s.last <= 900_000_000
  {
    hide After;
    assert es[..i + 1] == es[..i] + [es[i]];
    AfterSnoc(NO_SESSION, es[..i], es[i]);
  }

  // ---------------------------------------------------------------- polls

  predicate IsPoll(e: Event) {
    e.Request? && !e.refresh
  }

  function WithoutPolls(es: seq<Event>): (r: seq<Event>) {
    if es == [] then [] else (if IsPoll(es[0]) then [] else [es[0]]) + WithoutPolls(es[1..])
  }

  /** The verdicts on the refreshing requests, in order. */
  function Verdicts(s: Session, es: seq<Event>): (r: seq<bool>)
    decreases es
  {
    if es == [] then []
    else
      (if es[0].Request? && es[0].refresh then [Authorized(s, es[0].value, es[0].now)] else []) +
      Verdicts(Next(s, es[0]), es[1..])
  }

  predicate Dead(s: Session, now: int) {
    !s.active || now - s.last > IDLE
  }

  /** Two records that every later request treats alike. */
  predicate Alike(s: Session, t: Session, now: int) {
    s == t || (Dead(s, now) && Dead(t, now))
  }

  lemma {:induction false} AlikeStep(s: Session, t: Session, e: Event)
    requires Alike(s, t, e.now) && !IsPoll(e)
    ensures Alike(Next(s, e), Next(t, e), e.now)
    ensures e.Request? ==> (Authorized(s, e.value, e.now) <==> Authorized(t, e.value, e.now))
  {
  }

  lemma {:induction false} PollKeepsAlike(s: Session, t: Session, e: Event)
    requires Alike(s, t, e.now) && IsPoll(e)
    ensures Alike(Next(s, e), t, e.now)
  {
  }

  lemma {:induction false} AlikeLater(s: Session, t: Session, now: int, later: int)
    requires Alike(s, t, now) && now <= later
    ensures Alike(s, t, later)
  {
  }

  lemma {:induction false} PollsIgnored(s: Session, t: Session, es: seq<Event>, now: int)
    requires Ordered(es) && Alike(s, t, now) && (es != [] ==> now <= es[0].now)
    ensures Verdicts(s, es) == Verdicts(t, WithoutPolls(es))
    decreases es
  {
    hide Next, Alike, Authorized;
    if es != [] {
      var e, rest := es[0], es[1..];
      assert forall i :: 0 <= i < |rest| ==> rest[i] == es[i + 1];
      AlikeLater(s, t, now, e.now);
      if IsPoll(e) {
        PollKeepsAlike(s, t, e);
        assert WithoutPolls(es) == WithoutPolls(rest);
        PollsIgnored(Next(s, e), t, rest, e.now);
      } else {
        AlikeStep(s, t, e);
        PollsIgnored(Next(s, e), Next(t, e), rest, e.now);
        assert WithoutPolls(es) == [e] + WithoutPolls(rest);
        assert ([e] + WithoutPolls(rest))[1..] == WithoutPolls(rest);
      }
    }
  }

  /** Polling requests, however many and with whatever cookie, never change what later requests get. */
  lemma {:induction false} PollsNeverExtend(es: seq<Event>)
    requires Ordered(es)
    ensures Verdicts(NO_SESSION, es) == Verdicts(NO_SESSION, WithoutPolls(es))
  {
    hide Verdicts, WithoutPolls;
    PollsIgnored(NO_SESSION, NO_SESSION, es, if es == [] then 0 else es[0].now);
  }

  // ---------------------------------------------------------------- remaining time

  function Remaining(s: Session, now: int): (seconds: nat) {
    if s.active && now - s.last < IDLE then (IDLE - (now - s.last)) / SECOND else 0
  }

  /** For exactly that many seconds the current cookie stays good; the second after may already be too late. */
  lemma {:induction false} RemainingIsSafe(s: Session, now: int, later: int)
    requires s.active && |s.cookie| == TOKEN_LENGTH && now <= later
    ensures Remaining(s, now) > 0 && later <= now + Remaining(s, now) * SECOND ==>
              Authorized(s, Some(s.cookie), later)
    ensures later >= now + (Remaining(s, now) + 1) * SECOND ==> !Authorized(s, Some(s.cookie), later)
  {
    var left := IDLE - (now - s.last);
    if now - s.last < IDLE {
      var r := Remaining(s, now);
      assert r * SECOND <= left < (r + 1) * SECOND;
    }
  }

  lemma {:induction false} RemainingPositiveIff(s: Session, now: int)
    ensures Remaining(s, now) > 0 <==> s.active && now - s.last <= IDLE - SECOND
  {
  }

  class BrowserSession {
    var active: bool
    var cookie: seq<byte>
    var last: int

    ghost function Value(): (s: Session)
      reads this
    {
      Session(active, cookie, last)
    }

    constructor ()
      ensures Value() == NO_SESSION
    {
      active, cookie, last := false, [], 0;
    }

    method Open(now: int, token: seq<byte>)
      requires |token| == TOKEN_LENGTH
      modifies this
      ensures Value() == Next(old(Value()), Start(now, token))
    {
      cookie, last, active := token, now, true;
    }

    method Close(now: int)
      modifies this
      ensures Value() == Next(old(Value()), Clear(now))
    {
      active, cookie, last := false, [], 0;
    }

    method IsAuthorized(now: int, value: Option<seq<byte>>, refresh: bool) returns (authorized: bool)
      modifies this
      ensures authorized <==> Authorized(old(Value()), value, now)
      ensures Value() == Next(old(Value()), Request(now, value, refresh))
    {
      if value.None? || |value.value| != TOKEN_LENGTH {
        return false;
      }
      authorized := false;
      if active && now - last <= IDLE && value.value == cookie {
        if refresh {
          last := now;
        }
        authorized := true;
      } else if active && now - last > IDLE {
        active, cookie, last := false, [], 0;
      }
    }

    method RemainingSeconds(now: int) returns (seconds: nat)
      ensures seconds == Remaining(Value(), now)
      ensures seconds > 0 && |cookie| == TOKEN_LENGTH ==> Authorized(Value(), Some(cookie), now)
    {
      seconds := 0;
      if active {
        var elapsed := now - last;
        if elapsed < IDLE {
          seconds := (IDLE - elapsed) / SECOND;
        }
      }
    }
  }
}
