/**
 Staging a checked firmware image in memory, its expiry, and its installation: src/ota.c.
 The state machine is given as functions on states; the class methods refine them.
 */
module OtaStage {
  import opened CBytes
  import opened OtaImage

  const EXPIRY: int := 600_000_000      // ten minutes in microseconds
  const RETRY: int := 1_000_000
  const CHUNK := 4096
  const TIMEOUT_RETRIES := 4

  datatype Stage = Stage(image: seq<byte>, identifier: seq<byte>, version: seq<byte>, expiresAt: int)

  /** timer holds the instant at which the one-shot expiry timer fires, while it is armed. */
  datatype State = State(stage: Option<Stage>, inProgress: bool, timer: Option<int>, hasTimer: bool)

  // ---------------------------------------------------------------- receiving

  /** What one call of httpd_req_recv yields. */
  datatype Recv = Data(bytes: seq<byte>) | Timeout | Error

  datatype Received = Complete(image: seq<byte>) | TimedOut | Failed | Starved

  /** The network delivers at least one byte and never more than was asked for. */
  predicate Deliverable(room: nat, calls: seq<Recv>)
    decreases calls
  {
    calls == [] || match calls[0] {
      case Data(b) => 0 < |b| <= room && (|b| == room || Deliverable(room - |b|, calls[1..]))
      case Timeout => Deliverable(room, calls[1..])
      case Error => true
    }
  }

  /** The data of the calls before the one that stopped the reception. */
  function Gathered(calls: seq<Recv>): (r: seq<byte>) {
    if calls == [] then [] else (if calls[0].Data? then calls[0].bytes else []) + Gathered(calls[1..])
  }

  function Reception(room: nat, retries: nat, got: seq<byte>, calls: seq<Recv>): (r: Received)
    requires room == 0 || Deliverable(room, calls)
    decreases calls
  {
    if room == 0 then Complete(got)
    else if calls == [] then Starved
    else
      match calls[0]
      case Data(b) => Reception(room - |b|, 0, got + b, calls[1..])
      case Timeout => if retries >= TIMEOUT_RETRIES then TimedOut else Reception(room, retries + 1, got, calls[1..])
      case Error => Failed
  }

  lemma {:induction false} GatheredSnoc(calls: seq<Recv>, c: Recv)
    ensures Gathered(calls + [c]) == Gathered(calls) + (if c.Data? then c.bytes else [])
    decreases calls
  {
    if calls == [] {
      assert calls + [c] == [c] && [c][1..] == [];
    } else {
      assert (calls + [c])[1..] == calls[1..] + [c];
      GatheredSnoc(calls[1..], c);
      Grouped(if calls[0].Data? then calls[0].bytes else [], Gathered(calls[1..]), if c.Data? then c.bytes else []);
    }
  }

  lemma {:induction false} NothingGathered()
    ensures Gathered([]) == []
  {
  }

  predicate FiveAt(calls: seq<Recv>, k: int) {
    && 0 <= k <= |calls| - 5
    && calls[k] == calls[k + 1] == calls[k + 2] == calls[k + 3] == calls[k + 4] == Timeout
  }

  ghost predicate FiveTimeouts(calls: seq<Recv>) {
    exists k :: FiveAt(calls, k)
  }

  /**
   How a reception of size bytes ends behind the first n calls, which hold no error and no five
   timeouts in a row: they hold all the bytes, or the next call is the error or the fifth
   timeout, or there is no next call.
   */
  ghost predicate EndsBehind(size: nat, calls: seq<Recv>, n: nat, o: Received) {
    && n <= |calls| && Error !in calls[..n] && !FiveTimeouts(calls[..n])
    && match o
       case Complete(image) => image == Gathered(calls[..n]) && |image| == size
       case TimedOut => |Gathered(calls[..n])| < size && n < |calls| && FiveTimeouts(calls[..n + 1])
       case Failed => |Gathered(calls[..n])| < size && n < |calls| && calls[n] == Error
       case Starved => |Gathered(calls[..n])| < size && n == |calls|
  }

  /** The number of timeouts at the end. */
  function Trailing(calls: seq<Recv>): (n: nat)
    ensures n <= |calls| && forall k :: |calls| - n <= k < |calls| ==> calls[k] == Timeout
    ensures n < |calls| ==> calls[|calls| - n - 1] != Timeout
  {
    if calls == [] || calls[|calls| - 1] != Timeout then 0 else 1 + Trailing(calls[..|calls| - 1])
  }

  lemma {:induction false} FifthTimeout(calls: seq<Recv>, c: Recv)
    requires !FiveTimeouts(calls)
    ensures FiveTimeouts(calls + [c]) <==> c == Timeout && Trailing(calls) >= 4
  {
    var more, n := calls + [c], |calls|;
    if c == Timeout && Trailing(calls) >= 4 {
      assert FiveAt(more, n - 4);
    }
    if k :| FiveAt(more, k) {
      assert k <= n - 5 ==> FiveAt(calls, k);
    }
  }

  lemma {:induction false} FewTimeouts(calls: seq<Recv>)
    requires !FiveTimeouts(calls)
    ensures Trailing(calls) <= 4
  {
    assert Trailing(calls) >= 5 ==> FiveAt(calls, |calls| - 5);
  }

  lemma {:induction false} ReceptionEnds(size: nat, calls: seq<Recv>, i: nat) returns (n: nat)
    requires i <= |calls| && Error !in calls[..i] && !FiveTimeouts(calls[..i])
    requires |Gathered(calls[..i])| <= size
    requires |Gathered(calls[..i])| < size ==> Deliverable(size - |Gathered(calls[..i])|, calls[i..])
    ensures EndsBehind(size, calls, n,
                       Reception(size - |Gathered(calls[..i])|, Trailing(calls[..i]), Gathered(calls[..i]), calls[i..]))
    decreases |calls| - i
  {
    hide FiveTimeouts, Gathered;
    n := i;
    if |Gathered(calls[..i])| < size && i < |calls| {
      var c := calls[i];
      assert calls[..i + 1] == calls[..i] + [c] && calls[i..][1..] == calls[i + 1..];
      GatheredSnoc(calls[..i], c);
      FifthTimeout(calls[..i], c);
      FewTimeouts(calls[..i]);
      assert calls[..i + 1][..i] == calls[..i];
      if c.Data? || (c.Timeout? && Trailing(calls[..i]) < 4) {
        assert c.Timeout? ==> Gathered(calls[..i]) + [] == Gathered(calls[..i]);
        n := ReceptionEnds(size, calls, i + 1);
      }
    }
  }

  lemma {:induction false} GatheredMore(calls: seq<Recv>, n: nat, m: nat)
    requires n <= m <= |calls|
    ensures Gathered(calls[..n]) <= Gathered(calls[..m])
    decreases m
  {
    if n < m {
      assert calls[..m] == calls[..m - 1] + [calls[m - 1]];
      GatheredSnoc(calls[..m - 1], calls[m - 1]);
      GatheredMore(calls, n, m - 1);
    }
  }

  lemma {:induction false} TimeoutsStay(calls: seq<Recv>, n: nat, m: nat)
    requires n <= m <= |calls| && FiveTimeouts(calls[..n])
    ensures FiveTimeouts(calls[..m])
  {
    var k :| FiveAt(calls[..n], k);
    assert FiveAt(calls[..m], k);
  }

  /** A reception ends in one way only. */
  lemma {:induction false} OneEnd(size: nat, calls: seq<Recv>, n: nat, o: Received, m: nat, o': Received)
    requires EndsBehind(size, calls, n, o) && EndsBehind(size, calls, m, o') && n <= m
    ensures o == o'
  {
    hide FiveTimeouts, Gathered;
    GatheredMore(calls, n, m);
    if n < m {
      assert calls[n] in calls[..m];
      if o.TimedOut? {
        TimeoutsStay(calls, n + 1, m);
      }
    } else if n < |calls| {
      assert calls[..n + 1] == calls[..n] + [calls[n]];
      FifthTimeout(calls[..n], calls[n]);
    }
  }

  /** What the receive loop makes of the calls, said without the loop. */
  lemma {:induction false} ReceptionIff(size: nat, calls: seq<Recv>, o: Received)
    requires size == 0 || Deliverable(size, calls)
    ensures Reception(size, 0, [], calls) == o <==> exists n :: EndsBehind(size, calls, n, o)
  {
    hide EndsBehind;
    assert calls[..0] == [] && calls[0..] == calls;
    assert Gathered([]) == [] && Trailing([]) == 0 && !FiveTimeouts([]);
    var n := ReceptionEnds(size, calls, 0);
    if m :| EndsBehind(size, calls, m, o) {
      if n <= m {
        OneEnd(size, calls, n, Reception(size, 0, [], calls), m, o);
      } else {
        OneEnd(size, calls, m, o, n, Reception(size, 0, [], calls));
      }
    }
  }

  /**
   The receive loop. A complete image is exactly the data delivered, in order; a reception is
   given up on the first error or on the fifth timeout in a row.
   */
  method ReceiveStagedImage(size: nat, calls: seq<Recv>) returns (r: Received, ghost used: nat)
    requires Deliverable(size, calls)
    ensures r == Reception(size, 0, [], calls)
    ensures used <= |calls|
    ensures r.Complete? ==> r.image == Gathered(calls[..used]) && |r.image| == size && Error !in calls[..used]
    ensures r.TimedOut? ==> used >= 5 && forall k :: used - 5 <= k < used ==> calls[k] == Timeout
    ensures r.Failed? ==> used > 0 && calls[used - 1] == Error
    ensures r.Starved? ==> used == |calls|
    ensures !r.Complete? ==> |Gathered(calls[..used])| < size
  {
    hide Gathered;
    assert calls[..0] == [] && Gathered([]) == [] by {
      NothingGathered();
    }
    var image := [];
    var retries, i := 0, 0;
    while |image| < size
      invariant i <= |calls| && |image| <= size
      invariant |image| < size ==> Deliverable(size - |image|, calls[i..])
      invariant Reception(size, 0, [], calls) == Reception(size - |image|, retries, image, calls[i..])
      invariant image == Gathered(calls[..i]) && Error !in calls[..i]
      invariant retries <= TIMEOUT_RETRIES && retries <= i
      invariant forall k :: i - retries <= k < i ==> calls[k] == Timeout
      decreases |calls| - i
    {
      if i == |calls| {
        return Starved, i;
      }
      assert calls[..i + 1] == calls[..i] + [calls[i]] && calls[i..][1..] == calls[i + 1..];
      GatheredSnoc(calls[..i], calls[i]);
      match calls[i] {
        case Data(bytes) =>
          image := image + bytes;
          retries := 0;
        case Timeout =>
          if retries >= TIMEOUT_RETRIES {
            return TimedOut, i + 1;
          }
          retries := retries + 1;
        case Error =>
          return Failed, i + 1;
      }
      i := i + 1;
    }
    return Complete(image), i;
  }

  // ---------------------------------------------------------------- writing

  /** Hands the image to the OTA writer in chunks; the write numbered badWrite fails, if there is one. */
  method WriteChunks(image: seq<byte>, badWrite: Option<nat>) returns (ok: bool, chunks: seq<seq<byte>>)
    ensures forall i :: 0 <= i < |chunks| ==> 0 < |chunks[i]| <= CHUNK
    ensures ok ==> Flatten(chunks) == image
    ensures !ok ==> badWrite == Some(|chunks|) && Flatten(chunks) < image
    ensures ok <==> WritesOk(image, badWrite)
  {
    chunks := [];
    var offset := 0;
    while offset < |image|
      invariant offset <= |image| && Flatten(chunks) == image[..offset]
      invariant offset < |image| ==> offset == CHUNK * |chunks|
      invariant offset <= CHUNK * |chunks|
      invariant badWrite.Some? ==> |chunks| <= badWrite.value
      invariant forall i :: 0 <= i < |chunks| ==> 0 < |chunks[i]| <= CHUNK
    {
      var size := if |image| - offset > CHUNK then CHUNK else |image| - offset;
      if badWrite == Some(|chunks|) {
        return false, chunks;
      }
      FlattenSnoc(chunks, image[offset..offset + size]);
      chunks := chunks + [image[offset..offset + size]];
      offset := offset + size;
    }
    ok := true;
  }

  // ---------------------------------------------------------------- the machine

  /** Everything the surroundings decide about one upload: clock readings, buffers, network, hash library. */
  datatype Upload = Upload(
    lockedAt: int, length: int, partition: Option<nat>, memory: bool, calls: seq<Recv>, faults: set<nat>,
    busyFire: Option<int>, checkedAt: int, identifier: seq<byte>, startOk: bool, startedAt: int)

  /** What they decide about one installation of the staged image. */
  datatype Install = Install(
    lockedAt: int, identifier: seq<byte>, faults: set<nat>, beginOk: bool, badWrite: Option<nat>,
    endOk: bool, bootOk: bool)

  datatype Reply = Busy | TooLarge | NoMemory | ReceiveTimedOut | ReceiveFailed | NotAnImage | NotRetained
                 | Checked | NoMatch | BeginFailed | WriteFailed | BootFailed | Installed

  function Expired(s: State, now: int): (b: bool) {
    s.stage.Some? && now >= s.stage.value.expiresAt
  }

  /** Taking the lock drops a stage whose time is up. */
  function Locked(s: State, now: int): (t: State) {
    if Expired(s, now) then s.(stage := None) else s
  }

  /** The expiry callback running while a request holds the lock only re-arms the timer. */
  function BusyFire(s: State, fire: Option<int>): (t: State) {
    if fire.Some? then s.(timer := Some(fire.value + RETRY)) else s
  }

  ghost predicate Accepted(chip: Chip, hash: Hash, image: seq<byte>, faults: set<nat>) {
    && IsImage(chip, hash, image)
    && Decode(chip, hash, image).Some?
    && HashCallsOk(faults, HashAppended(image[..HEADER_SIZE]), 4 + 2 * image[1])
  }

  predicate UploadOk(u: Upload) {
    u.length > 0 ==> Deliverable(u.length, u.calls)
  }

  ghost function Uploaded(chip: Chip, hash: Hash, s: State, u: Upload): (r: (State, Reply))
    requires UploadOk(u)
  {
    var t := Locked(s, u.lockedAt);
    if t.inProgress then (t, Busy)
    else if u.partition.None? || u.length <= 0 || u.length > u.partition.value then (t, TooLarge)
    else if !u.memory then (t, NoMemory)
    else
      var got := Reception(u.length, 0, [], u.calls);
      if !got.Complete? then (BusyFire(t, u.busyFire), if got.TimedOut? then ReceiveTimedOut else ReceiveFailed)
      else if !Accepted(chip, hash, got.image, u.faults) then (BusyFire(t, u.busyFire), NotAnImage)
      else
        if !t.hasTimer || !u.startOk then
          (t.(stage := None, timer := if t.hasTimer then None else BusyFire(t, u.busyFire).timer), NotRetained)
        else
          var text := VersionText(Decode(chip, hash, got.image).value.segments[0].data);
          (t.(stage := Some(Stage(got.image, u.identifier, text, u.checkedAt + EXPIRY)),
              timer := Some(u.startedAt + EXPIRY)), Checked)
  }

  ghost function Installs(chip: Chip, hash: Hash, s: State, i: Install): (r: (State, Reply)) {
    var t := Locked(s, i.lockedAt);
    if t.inProgress || t.stage.None? || t.stage.value.identifier != i.identifier then (t, NoMatch)
    else
      var done := t.(stage := None, timer := if t.hasTimer then None else t.timer);
      if !Accepted(chip, hash, t.stage.value.image, i.faults) then (done, NotAnImage)
      else if !i.beginOk then (done, BeginFailed)
      else if !WritesOk(t.stage.value.image, i.badWrite) || !i.endOk then (done, WriteFailed)
      else if !i.bootOk then (done, BootFailed)
      else (done, Installed)
  }

  /** The image is written in one chunk per 4096 bytes begun. */
  predicate WritesOk(image: seq<byte>, badWrite: Option<nat>) {
    badWrite.Some? ==> badWrite.value * CHUNK >= |image|
  }

  /** The expiry callback with the lock free: the timer is spent, an expired stage is dropped. */
  function Fired(s: State, now: int): (t: State) {
    Locked(s, now).(timer := None)
  }

  // ---------------------------------------------------------------- replies to an upload

  /** The calls of an upload bring its bytes to this end. */
  ghost predicate Arrives(u: Upload, o: Received) {
    u.length > 0 && exists n :: EndsBehind(u.length, u.calls, n, o)
  }

  predicate Fits(u: Upload) {
    u.partition.Some? && 0 < u.length <= u.partition.value
  }

  /** The bytes are an image, and none of the hash calls made on it fails. */
  ghost predicate Passes(chip: Chip, hash: Hash, image: seq<byte>, faults: set<nat>) {
    && IsImage(chip, hash, image)
    && (|image| >= 24 && image[23] != 0 ==> forall k: nat :: k < 4 + 2 * (image[1] as int) ==> k !in faults)
  }

  lemma {:induction false} ReceptionArrives(u: Upload)
    requires u.length > 0 && UploadOk(u)
    ensures forall o :: Arrives(u, o) <==> o == Reception(u.length, 0, [], u.calls)
  {
    hide EndsBehind, Reception;
    forall o
      ensures Arrives(u, o) <==> o == Reception(u.length, 0, [], u.calls)
    {
      ReceptionIff(u.length, u.calls, o);
    }
  }

  /** The bytes of every upload come to exactly one end. */
  lemma {:induction false} UploadEnds(u: Upload) returns (o: Received)
    requires u.length > 0 && UploadOk(u)
    ensures Arrives(u, o) && forall o' :: Arrives(u, o') ==> o' == o
  {
    hide Arrives, Reception;
    ReceptionArrives(u);
    o := Reception(u.length, 0, [], u.calls);
  }

  lemma {:induction false} AcceptedIff(chip: Chip, hash: Hash, image: seq<byte>, faults: set<nat>)
    ensures Accepted(chip, hash, image, faults) <==> Passes(chip, hash, image, faults)
  {
    hide IsImage, Decode;
    if IsImage(chip, hash, image) {
      ImageIsDecoded(chip, hash, image);
    }
  }

  /**
   The reply to an upload and what it leaves behind, for every state in which no other request
   is at work: each reply under its condition on the partition, the length, the memory, the bytes
   delivered, the image they form and the timer.
   */
  lemma {:induction false} UploadReplies(chip: Chip, hash: Hash, s: State, u: Upload, o: Received)
    requires !s.inProgress && UploadOk(u)
    requires u.length > 0 ==> Arrives(u, o)
    ensures var reply := Uploaded(chip, hash, s, u).1;
            && (reply == TooLarge <==> !Fits(u))
            && (reply == NoMemory <==> Fits(u) && !u.memory)
            && (reply == ReceiveTimedOut <==> Fits(u) && u.memory && o.TimedOut?)
            && (reply == ReceiveFailed <==> Fits(u) && u.memory && (o.Failed? || o.Starved?))
            && (reply == NotAnImage <==>
                Fits(u) && u.memory && o.Complete? && !Passes(chip, hash, o.image, u.faults))
            && (reply == NotRetained <==>
                Fits(u) && u.memory && o.Complete? && Passes(chip, hash, o.image, u.faults) && !(s.hasTimer && u.startOk))
            && (reply == Checked <==>
                Fits(u) && u.memory && o.Complete? && Passes(chip, hash, o.image, u.faults) && s.hasTimer && u.startOk)
  {
    hide IsImage, Decode, HashCallsOk, Reception, VersionText, EndsBehind, UploadOk, Accepted, Passes;
    if u.length > 0 {
      ReceptionArrives(u);
    }
    if o.Complete? {
      AcceptedIff(chip, hash, o.image, u.faults);
    }
  }

  /**
   What an upload leaves behind. A checked one leaves exactly its bytes, under its identifier, with
   the version of their descriptor, for ten minutes from the check; one that could not be timed
   leaves nothing; any other leaves the stage it found, unless that had run out.
   */
  lemma {:induction false} UploadLeaves(chip: Chip, hash: Hash, s: State, u: Upload, m: Image)
    requires !s.inProgress && UploadOk(u) && ImageOk(chip, hash, m)
    ensures var (t, reply) := Uploaded(chip, hash, s, u);
            && !t.inProgress && t.hasTimer == s.hasTimer
            && (reply == Checked && Arrives(u, Complete(Serialise(chip, hash, m))) ==>
                  && t.stage == Some(Stage(Serialise(chip, hash, m), u.identifier, VersionText(m.segments[0].data),
                                           u.checkedAt + 600_000_000))
                  && t.timer == Some(u.startedAt + 600_000_000))
            && (reply == NotRetained ==> t.stage.None?)
            && (reply == NotRetained && s.hasTimer ==> t.timer.None?)
            && (reply != Checked && reply != NotRetained ==>
                  t.stage == if s.stage.Some? && s.stage.value.expiresAt <= u.lockedAt then None else s.stage)
            && (reply == TooLarge || reply == NoMemory ==> t.timer == s.timer)
            && (reply == ReceiveFailed || reply == ReceiveTimedOut || reply == NotAnImage
                || (reply == NotRetained && !s.hasTimer) ==>
                  t.timer == if u.busyFire.Some? then Some(u.busyFire.value + 1_000_000) else s.timer)
  {
    hide IsImage, Decode, HashCallsOk, Reception, VersionText, EndsBehind, UploadOk, ImageOk, Serialise;
    if u.length > 0 {
      ReceptionArrives(u);
    }
    DecodeIff(chip, hash, Serialise(chip, hash, m), m);
    DescriptorThere(chip, hash, m);
  }

  lemma {:induction false} DescriptorThere(chip: Chip, hash: Hash, m: Image)
    requires ImageOk(chip, hash, m)
    ensures |m.segments| > 0 && |m.segments[0].data| >= 256
  {
  }

  // ---------------------------------------------------------------- runs

  /** Direct is an installation straight from the network; it takes the lock but leaves the stage alone. */
  datatype Event = Up(u: Upload) | In(i: Install) | Direct(at: int) | Fire(at: int) | Tick(at: int)

  /** Power-up; the expiry timer may fail to be created. */
  function Start(timerCreated: bool): (s: State) {
    State(None, false, None, timerCreated)
  }

  ghost function Apply(chip: Chip, hash: Hash, s: State, e: Event): (r: (State, Reply))
    requires e.Up? ==> UploadOk(e.u)
  {
    match e
    case Up(u) => Uploaded(chip, hash, s, u)
    case In(i) => Installs(chip, hash, s, i)
    case Direct(at) => (Locked(s, at), if Locked(s, at).inProgress then Busy else Installed)
    case Fire(at) => (Fired(s, at), NoMatch)
    case Tick(at) => (s, NoMatch)
  }

  function Ends(e: Event): (t: int) {
    match e
    case Up(u) => u.startedAt
    case In(i) => i.lockedAt
    case Direct(at) => at
    case Fire(at) => at
    case Tick(at) => at
  }

  /** The clock never runs backwards, and the timer fires only when armed and due. */
  predicate Possible(s: State, now: int, e: Event) {
    match e
    case Up(u) =>
      && UploadOk(u)
      && now <= u.lockedAt <= u.checkedAt <= u.startedAt
      && (u.busyFire.Some? ==>
            && s.timer.Some? && s.timer.value <= u.busyFire.value
            && u.lockedAt <= u.busyFire.value <= u.checkedAt)
    case Fire(at) => now <= at && s.timer.Some? && s.timer.value <= at
    case _ => now <= Ends(e)
  }

  ghost predicate PossibleRun(chip: Chip, hash: Hash, s: State, now: int, es: seq<Event>)
    decreases es
  {
    es == [] ||
    (Possible(s, now, es[0]) && PossibleRun(chip, hash, Apply(chip, hash, s, es[0]).0, Ends(es[0]), es[1..]))
  }

  /** A held stage is a checked image with an armed timer that fires no earlier than its deadline. */
  ghost predicate Inv(chip: Chip, hash: Hash, s: State, now: int) {
    && !s.inProgress
    && (!s.hasTimer ==> s.timer.None?)
    && (s.stage.Some? ==>
          && IsImage(chip, hash, s.stage.value.image)
          && s.timer.Some? && s.stage.value.expiresAt <= s.timer.value
          && s.stage.value.expiresAt <= now + EXPIRY)
  }

  /** Where a held stage comes from: a checked upload, whose clock reading fixed the deadline. */
  ghost predicate StagedBy(e: Event, st: Stage) {
    && e.Up?
    && st.identifier == e.u.identifier
    && st.expiresAt == e.u.checkedAt + 600_000_000
    && Arrives(e.u, Complete(st.image))
  }

  lemma {:induction false} ApplyKeepsInv(chip: Chip, hash: Hash, s: State, now: int, e: Event)
    requires Inv(chip, hash, s, now) && Possible(s, now, e)
    ensures Inv(chip, hash, Apply(chip, hash, s, e).0, Ends(e))
  {
    hide IsImage, Decode, HashCallsOk, Reception, VersionText;
  }

  /** One event leaves the stage as it was, drops it, or stores a freshly checked upload. */
  lemma {:induction false} StageChanges(chip: Chip, hash: Hash, s: State, now: int, e: Event)
    requires Inv(chip, hash, s, now) && Possible(s, now, e)
    ensures var t := Apply(chip, hash, s, e).0.stage;
            t == s.stage || t.None? || (StagedBy(e, t.value) && Apply(chip, hash, s, e).1 == Checked)
    ensures e.Tick? ==> Apply(chip, hash, s, e).0 == s
    ensures e.Direct? ==>
              Apply(chip, hash, s, e).0 == if s.stage.Some? && s.stage.value.expiresAt <= e.at then s.(stage := None) else s
  {
    hide IsImage, Decode, HashCallsOk, Reception, VersionText, EndsBehind, UploadOk;
    if e.Up? && e.u.length > 0 {
      ReceptionArrives(e.u);
    }
  }

  /** The timer, once it fires with the lock free, never leaves a stage behind. */
  lemma {:induction false} FireDropsStage(chip: Chip, hash: Hash, s: State, now: int, at: int)
    requires Inv(chip, hash, s, now) && Possible(s, now, Fire(at))
    ensures Fired(s, at).stage.None?
  {
  }

  ghost function After(chip: Chip, hash: Hash, s: State, now: int, es: seq<Event>): (r: (State, int))
    requires PossibleRun(chip, hash, s, now, es)
    decreases es
  {
    if es == [] then (s, now) else After(chip, hash, Apply(chip, hash, s, es[0]).0, Ends(es[0]), es[1..])
  }

  /** Safety of every run: the invariant, and the origin of whatever stage is held at the end. */
  lemma {:induction false} RunSafe(chip: Chip, hash: Hash, s: State, now: int, es: seq<Event>)
    requires Inv(chip, hash, s, now) && PossibleRun(chip, hash, s, now, es)
    ensures var (t, end) := After(chip, hash, s, now, es);
            && Inv(chip, hash, t, end) && now <= end
            && (t.stage.Some? && t.stage != s.stage ==> exists k :: 0 <= k < |es| && StagedBy(es[k], t.stage.value))
    decreases es
  {
    hide Apply, IsImage;
    if es != [] {
      var s' := Apply(chip, hash, s, es[0]).0;
      ApplyKeepsInv(chip, hash, s, now, es[0]);
      StageChanges(chip, hash, s, now, es[0]);
      RunSafe(chip, hash, s', Ends(es[0]), es[1..]);
      var t := After(chip, hash, s, now, es).0;
      if t.stage.Some? && t.stage != s.stage {
        if t.stage == s'.stage {
          assert StagedBy(es[0], t.stage.value);
        } else {
          var k :| 0 <= k < |es| - 1 && StagedBy(es[1..][k], t.stage.value);
          assert es[1..][k] == es[k + 1];
        }
      }
    }
  }

  /** The request names the stage held, in time. */
  predicate Matching(s: State, i: Install) {
    s.stage.Some? && s.stage.value.identifier == i.identifier && i.lockedAt < s.stage.value.expiresAt
  }

  ghost predicate HashesOk(image: seq<byte>, i: Install) {
    |image| >= 24 && (image[23] != 0 ==> forall k: nat :: k < 4 + 2 * (image[1] as int) ==> k !in i.faults)
  }

  /** Every call the installation makes succeeds. */
  ghost predicate CallsOk(image: seq<byte>, i: Install) {
    && HashesOk(image, i)
    && i.beginOk && WritesOk(image, i.badWrite) && i.endOk && i.bootOk
  }

  /**
   In every run from power-up: an installation succeeds exactly when it names the stage held,
   in time, and no call fails; every attempt that names it uses it up, successful or not; and
   that stage is an image a checked upload of the run left less than ten minutes before.
   */
  lemma {:induction false} InstallNeedsFreshStage(chip: Chip, hash: Hash, es: seq<Event>, i: Install, timerCreated: bool)
    requires PossibleRun(chip, hash, Start(timerCreated), 0, es)
    requires After(chip, hash, Start(timerCreated), 0, es).1 <= i.lockedAt
    ensures var (s, _) := After(chip, hash, Start(timerCreated), 0, es);
            var (t, reply) := Installs(chip, hash, s, i);
            && (reply == Installed <==> Matching(s, i) && CallsOk(s.stage.value.image, i))
            && (reply == NoMatch <==> !Matching(s, i))
            && (reply == NotAnImage <==> Matching(s, i) && !HashesOk(s.stage.value.image, i))
            && (reply == BeginFailed <==> Matching(s, i) && HashesOk(s.stage.value.image, i) && !i.beginOk)
            && (reply == BootFailed <==>
                Matching(s, i) && CallsOk(s.stage.value.image, i.(bootOk := true)) && !i.bootOk)
            && (reply != NoMatch ==> t.stage.None?)
            && (Matching(s, i) ==>
                  && IsImage(chip, hash, s.stage.value.image)
                  && exists k :: 0 <= k < |es| && StagedBy(es[k], s.stage.value)
                                 && i.lockedAt < es[k].u.checkedAt + 600_000_000)
  {
    hide IsImage, PossibleRun, After, Decode, Accepted, Passes, WritesOk, Arrives;
    RunSafe(chip, hash, Start(timerCreated), 0, es);
    var s := After(chip, hash, Start(timerCreated), 0, es).0;
    if s.stage.Some? {
      HashesDecide(chip, hash, s.stage.value.image, i);
      var k :| 0 <= k < |es| && StagedBy(es[k], s.stage.value);
    }
  }

  lemma {:induction false} HashesDecide(chip: Chip, hash: Hash, image: seq<byte>, i: Install)
    requires IsImage(chip, hash, image)
    ensures Accepted(chip, hash, image, i.faults) <==> HashesOk(image, i)
  {
    hide IsImage, Decode;
    ImageIsDecoded(chip, hash, image);
    AcceptedIff(chip, hash, image, i.faults);
  }

  lemma {:induction false} ImageIsDecoded(chip: Chip, hash: Hash, image: seq<byte>)
    requires IsImage(chip, hash, image)
    ensures Decode(chip, hash, image).Some? && |image| >= HEADER_SIZE
  {
    DecodesIff(chip, hash, image);
  }

  // ---------------------------------------------------------------- the module's own state

  class Stager {
    var stage: Option<Stage>
    var inProgress: bool
    var timer: Option<int>
    var hasTimer: bool

    function View(): (s: State)
      reads this
    {
      State(stage, inProgress, timer, hasTimer)
    }

    constructor (timerCreated: bool)
      ensures View() == Start(timerCreated)
    {
      stage, inProgress, timer, hasTimer := None, false, None, timerCreated;
    }

    method TakeStageLock(now: int)
      modifies this`stage
      ensures View() == Locked(old(View()), now)
    {
      if stage.Some? && now >= stage.value.expiresAt {
        stage := None;
      }
    }

    method StopTimer()
      modifies this`timer
      ensures View() == old(View()).(timer := if hasTimer then None else old(timer))
    {
      if hasTimer {
        timer := None;
      }
    }

    method StageFromRequest(chip: Chip, hash: Hash, u: Upload) returns (reply: Reply)
      requires UploadOk(u)
      modifies this
      ensures (View(), reply) == Uploaded(chip, hash, old(View()), u)
    {
      hide IsImage, Decode, HashCallsOk, Reception, VersionText;
      TakeStageLock(u.lockedAt);
      if inProgress {
        return Busy;
      }
      inProgress := true;
      if u.partition.None? || u.length <= 0 || u.length > u.partition.value {
        inProgress := false;
        return TooLarge;
      }
      if !u.memory {
        inProgress := false;
        return NoMemory;
      }
      var received, _ := ReceiveStagedImage(u.length, u.calls);
      var status, version := Failure, [];
      if received.Complete? {
        status, version := ValidateStagedImage(chip, hash, received.image, u.faults);
      }
      if u.busyFire.Some? {
        timer := Some(u.busyFire.value + RETRY);   // the callback found the lock taken meanwhile
      }
      if status != Valid {
        inProgress := false;
        return if received.Complete? then NotAnImage else if received.TimedOut? then ReceiveTimedOut else ReceiveFailed;
      }
      StopTimer();
      stage := Some(Stage(received.image, u.identifier, version, u.checkedAt + EXPIRY));
      if !hasTimer || !u.startOk {
        stage := None;
        inProgress := false;
        return NotRetained;
      }
      timer := Some(u.startedAt + EXPIRY);
      inProgress := false;
      return Checked;
    }

    /** written is what the OTA writer was handed. */
    method InstallStaged(chip: Chip, hash: Hash, i: Install) returns (reply: Reply, written: seq<seq<byte>>)
      modifies this
      ensures (View(), reply) == Installs(chip, hash, old(View()), i)
      ensures reply == Installed ==> old(stage).Some? && Flatten(written) == old(stage).value.image
      ensures forall k :: 0 <= k < |written| ==> 0 < |written[k]| <= CHUNK
    {
      hide IsImage, Decode, HashCallsOk;
      written := [];
      TakeStageLock(i.lockedAt);
      if inProgress || stage.None? || stage.value.identifier != i.identifier {
        return NoMatch, written;
      }
      inProgress := true;
      StopTimer();
      var image := stage.value.image;
      var status, _ := ValidateStagedImage(chip, hash, image, i.faults);
      if status != Valid {
        stage, inProgress := None, false;
        return NotAnImage, written;
      }
      if !i.beginOk {
        stage, inProgress := None, false;
        return BeginFailed, written;
      }
      var ok;
      ok, written := WriteChunks(image, i.badWrite);
      reply := if !ok || !i.endOk then WriteFailed else if !i.bootOk then BootFailed else Installed;
      stage, inProgress := None, false;
    }

    method ExpiryCallback(now: int)
      modifies this
      ensures View() == Fired(old(View()), now)
    {
      timer := None;
      TakeStageLock(now);
    }
  }
}
