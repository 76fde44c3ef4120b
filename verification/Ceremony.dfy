/**
  The approval ceremony: one durable record advanced by guarded atomic updates, and any number of
  request drivers that race each other over it with bounded retry loops.

  A run is any finite sequence of events. Each driver event is one atomic step of one driver (a
  read, or a guarded update); clock readings, random values and failures are inputs of the event,
  so clocks may disagree and go backwards.
 */
module Ceremony {
  import opened Wrappers

  datatype Config = Config(minHold: int, ttl: int, maxLifetime: int, grantTtl: int)

  /** What the service constructor demands of its durations. */
  predicate ValidConfig(c: Config) {
    && 0 < c.minHold && 0 < c.ttl && 0 < c.maxLifetime && 0 < c.grantTtl
    && c.minHold < c.maxLifetime && c.ttl <= c.maxLifetime - c.minHold
  }

  datatype State = HoldPending | ChallengeIssued | QuorumVerified | GrantIssued | Consumed | Expired | Denied

  datatype Challenge = Challenge(id: nat, issued: int, expires: int)
  datatype Verified = Verified(challengeId: nat, at: int, signers: nat)
  datatype Grant = Grant(id: nat, issued: int, expires: int)

  datatype Record = Record(state: State, hold: int, updated: int, expires: Option<int>,
                           challenge: Option<Challenge>, verified: Option<Verified>, grant: Option<Grant>,
                           consumedAt: Option<int>, version: nat)

  function NewHold(now: int): Record {
    Record(HoldPending, now, now, None, None, None, None, None, 1)
  }

  function Min(a: int, b: int): int { if a < b then a else b }

  // ----- the guarded updates of the store; None is a transition conflict

  function IssueChallengeUpdate(r: Record, ch: Challenge, now: int): Option<Record> {
    if r.state.HoldPending? && r.updated <= now then
      Some(r.(state := ChallengeIssued, challenge := Some(ch), expires := Some(ch.expires),
              updated := now, version := r.version + 1))
    else None
  }

  function RecordQuorumUpdate(r: Record, v: Verified, now: int): Option<Record> {
    if && r.state.ChallengeIssued? && r.challenge.Some? && r.challenge.value.id == v.challengeId
       && r.expires.Some? && r.expires.value > now && r.updated <= now then
      Some(r.(state := QuorumVerified, verified := Some(v), updated := now, version := r.version + 1))
    else None
  }

  function IssueGrantUpdate(r: Record, g: Grant, signers: nat, now: int): Option<Record> {
    if && r.state.QuorumVerified? && r.verified.Some? && r.verified.value.signers == signers
       && r.expires.Some? && r.expires.value > now && r.updated <= now then
      Some(r.(state := GrantIssued, grant := Some(g), expires := Some(g.expires),
              updated := now, version := r.version + 1))
    else None
  }

  function ConsumeUpdate(r: Record, grantId: nat, now: int): Option<Record> {
    if && r.state.GrantIssued? && r.grant.Some? && r.grant.value.id == grantId && r.consumedAt.None?
       && r.expires.Some? && r.expires.value > now && r.updated <= now then
      Some(r.(state := Consumed, consumedAt := Some(now), updated := now, version := r.version + 1))
    else None
  }

  function DenyUpdate(r: Record, now: int): Option<Record> {
    if && (r.state.HoldPending? || r.state.ChallengeIssued? || r.state.QuorumVerified? || r.state.GrantIssued?)
       && r.updated <= now then
      Some(r.(state := Denied, updated := now, version := r.version + 1))
    else None
  }

  function ExpireUpdate(r: Record, now: int): Option<Record> {
    if && (r.state.ChallengeIssued? || r.state.QuorumVerified? || r.state.GrantIssued?)
       && r.expires.Some? && r.expires.value <= now && r.updated <= now then
      Some(r.(state := Expired, updated := now, version := r.version + 1))
    else None
  }

  // ----- drivers

  datatype Result =
    | Returned(record: Record)
    | Refused      // a state the driver does not serve
    | Failed       // any error other than a transition conflict
    | Exhausted    // the retry loop ran out

  datatype Pc =
    | Top                                        // about to read the record
    | IssueCall | IssueWrite(ch: Challenge, at: int)
    | VerifyCall | VerifyWrite(v: Verified, at: int)
    | GrantCall | GrantWrite(g: Grant, signers: nat, at: int)
    | Done(result: Result)

  datatype Kind = Issue | Submit

  /** `stalls` counts the rounds that ended in a conflict although the record had not moved on. */
  datatype Driver = Driver(kind: Kind, pc: Pc, round: nat, stalls: nat)

  function Start(kind: Kind): Driver { Driver(kind, Top, 0, 0) }

  function Rounds(kind: Kind): nat { if kind.Issue? then 3 else 5 }

  /** `early` is a failure of the step's first read, `late` one after the record was examined. */
  datatype Input = Input(now: int, nonce: nat, early: bool, late: bool)

  function Retry(d: Driver): Driver { d.(pc := Top, round := d.round + 1) }

  function Stall(d: Driver): Driver { Retry(d).(stalls := d.stalls + 1) }

  function Finish(d: Driver, r: Result): Driver { d.(pc := Done(r)) }

  /** The switch on the state just read. */
  function Dispatch(r: Record, d: Driver): Driver {
    match (d.kind, r.state)
    case (Issue, HoldPending) => d.(pc := IssueCall)
    case (Issue, ChallengeIssued) => Finish(d, Returned(r))
    case (Issue, QuorumVerified) => Finish(d, Returned(r))
    case (Submit, ChallengeIssued) => d.(pc := VerifyCall)
    case (Submit, QuorumVerified) => d.(pc := GrantCall)
    case (_, GrantIssued) => Finish(d, Returned(r))
    case (_, Consumed) => Finish(d, Returned(r))
    case _ => Finish(d, Refused)
  }

  function CallIssue(c: Config, r: Record, d: Driver, i: Input): Driver {
    if !r.state.HoldPending? then Retry(d)
    else if i.now < r.hold + c.minHold then Finish(d, Failed)
    else if r.hold + c.maxLifetime <= i.now then Stall(d)
    else if i.late then Finish(d, Failed)
    else d.(pc := IssueWrite(Challenge(i.nonce, i.now, Min(i.now + c.ttl, r.hold + c.maxLifetime)), i.now))
  }

  function CallVerify(c: Config, r: Record, d: Driver, i: Input): Driver {
    if !r.state.ChallengeIssued? || r.challenge.None? then Retry(d)
    else if i.late || i.now < r.challenge.value.issued || r.challenge.value.expires <= i.now then Finish(d, Failed)
    else d.(pc := VerifyWrite(Verified(r.challenge.value.id, i.now, i.nonce), i.now))
  }

  function CallGrant(c: Config, r: Record, d: Driver, i: Input): Driver {
    if !r.state.QuorumVerified? || r.verified.None? || r.challenge.None? then Retry(d)
    else if i.now < r.verified.value.at then Stall(d)
    else
      var expires := Min(i.now + c.grantTtl, r.challenge.value.expires);
      if expires <= i.now then Stall(d)
      else if i.late then Finish(d, Failed)
      else d.(pc := GrantWrite(Grant(i.nonce, i.now, expires), r.verified.value.signers, i.now))
  }

  /** One atomic step of a driver. */
  function Step(c: Config, r: Record, d: Driver, i: Input): (Record, Driver) {
    if d.pc.Done? then (r, d)
    else if d.pc.Top? && d.round >= Rounds(d.kind) then (r, Finish(d, Exhausted))
    else if i.early then (r, Finish(d, Failed))
    else match d.pc
      case Top => (r, Dispatch(r, d))
      case IssueCall => (r, CallIssue(c, r, d, i))
      case VerifyCall => (r, CallVerify(c, r, d, i))
      case GrantCall => (r, CallGrant(c, r, d, i))
      case IssueWrite(ch, at) =>
        var u := IssueChallengeUpdate(r, ch, at);
        if u.Some? then (u.value, Finish(d, Returned(u.value))) else (r, Retry(d))
      case VerifyWrite(v, at) =>
        var u := RecordQuorumUpdate(r, v, at);
        (if u.Some? then u.value else r, Retry(d))
      case GrantWrite(g, signers, at) =>
        var u := IssueGrantUpdate(r, g, signers, at);
        (if u.Some? then u.value else r, Retry(d))
      case Done(_) => (r, d)
  }

  datatype Event =
    | Drive(who: nat, input: Input)
    | Consume(grantId: nat, now: int)
    | Deny(now: int)
    | Expire(now: int)

  datatype System = System(record: Record, drivers: seq<Driver>)

  function Or(u: Option<Record>, r: Record): Record { if u.Some? then u.value else r }

  function Next(c: Config, s: System, e: Event): System {
    match e
    case Drive(who, input) =>
      if who >= |s.drivers| then s
      else
        var (r, d) := Step(c, s.record, s.drivers[who], input);
        System(r, s.drivers[who := d])
    case Consume(g, now) => s.(record := Or(ConsumeUpdate(s.record, g, now), s.record))
    case Deny(now) => s.(record := Or(DenyUpdate(s.record, now), s.record))
    case Expire(now) => s.(record := Or(ExpireUpdate(s.record, now), s.record))
  }

  function Exec(c: Config, s: System, events: seq<Event>): System
    decreases |events|
  {
    if events == [] then s else Next(c, Exec(c, s, events[..|events| - 1]), events[|events| - 1])
  }

  // ----- the invariant

  /** `x` is the smaller of the two. */
  predicate Smaller(x: int, a: int, b: int) { x <= a && x <= b && (x == a || x == b) }

  /** A challenge lives for its time to live, but not past the lifetime of the hold. */
  predicate ChallengeTimes(c: Config, hold: int, ch: Challenge) {
    && hold + c.minHold <= ch.issued < ch.expires
    && Smaller(ch.expires, ch.issued + c.ttl, hold + c.maxLifetime)
  }

  /** A grant lives for its time to live, but not past its challenge. */
  predicate GrantTimes(c: Config, ch: Challenge, g: Grant) {
    g.issued < g.expires && Smaller(g.expires, g.issued + c.grantTtl, ch.expires)
  }

  /** The authority artifacts of a record are ordered in time and live exactly as long as configured. */
  predicate Chronology(c: Config, r: Record) {
    && (r.challenge.Some? ==> ChallengeTimes(c, r.hold, r.challenge.value))
    && (r.verified.Some? ==>
          && r.challenge.Some?
          && r.verified.value.challengeId == r.challenge.value.id
          && r.challenge.value.issued <= r.verified.value.at < r.challenge.value.expires)
    && (r.grant.Some? ==>
          && r.verified.Some?
          && r.verified.value.at <= r.grant.value.issued && GrantTimes(c, r.challenge.value, r.grant.value))
    && (r.consumedAt.Some? ==>
          r.grant.Some? && r.grant.value.issued <= r.consumedAt.value < r.grant.value.expires)
  }

  /** The shape each state demands, as the persisted record is validated. */
  predicate Shape(r: Record) {
    match r.state
    case HoldPending =>
      && r.challenge.None? && r.verified.None? && r.grant.None? && r.consumedAt.None?
      && r.expires.None? && r.updated == r.hold
    case ChallengeIssued =>
      && r.challenge.Some? && r.verified.None? && r.grant.None? && r.consumedAt.None?
      && r.updated == r.challenge.value.issued && r.expires == Some(r.challenge.value.expires)
    case QuorumVerified =>
      && r.challenge.Some? && r.verified.Some? && r.grant.None? && r.consumedAt.None?
      && r.updated == r.verified.value.at && r.expires == Some(r.challenge.value.expires)
    case GrantIssued =>
      && r.challenge.Some? && r.verified.Some? && r.grant.Some? && r.consumedAt.None?
      && r.updated == r.grant.value.issued && r.expires == Some(r.grant.value.expires)
    case Consumed =>
      && r.grant.Some? && r.consumedAt == Some(r.updated) && r.expires == Some(r.grant.value.expires)
    case _ =>
      && r.consumedAt.None?
      && (r.grant.Some? ==> r.expires == Some(r.grant.value.expires))
      && (r.grant.None? && r.challenge.Some? ==> r.expires == Some(r.challenge.value.expires))
      && (r.state.Expired? ==> r.challenge.Some? && r.expires.Some? && r.expires.value <= r.updated)
  }

  predicate ValidRecord(c: Config, r: Record) { Chronology(c, r) && Shape(r) }

  /** How far the record has moved; the last level is final for every driver. */
  function Level(r: Record): nat {
    match r.state
    case HoldPending => 0
    case ChallengeIssued => 1
    case QuorumVerified => 2
    case _ => 3
  }

  /** A record only gains artifacts; what is written stays. */
  predicate Grows(r: Record, r': Record) {
    && r.hold == r'.hold && Level(r) <= Level(r') && r.version <= r'.version
    && (r.challenge.Some? ==> r'.challenge == r.challenge)
    && (r.verified.Some? ==> r'.verified == r.verified)
    && (r.grant.Some? ==> r'.grant == r.grant)
    && (r.state.Consumed? || r.state.Expired? || r.state.Denied? ==> r' == r)
    && (r.version == r'.version ==> r == r')
  }

  /** Rounds that did make progress or saw the record move. */
  function Moves(d: Driver): int { d.round - d.stalls }

  /** The most rounds of that sort a driver can need: the record moves at most so often under it. */
  function Cap(kind: Kind): nat { if kind.Issue? then 1 else 2 }

  /** What a driver may rely on at each point of its loop. */
  predicate DriverOk(c: Config, r: Record, d: Driver) {
    && 0 <= Moves(d) <= Cap(d.kind)
    && match d.pc
       case Top =>
         if d.kind.Issue? then Moves(d) == 1 ==> Level(r) >= 1
         else (Moves(d) >= 1 ==> Level(r) >= 2) && (Moves(d) == 2 ==> Level(r) == 3)
       case IssueCall => d.kind.Issue? && Moves(d) == 0
       case IssueWrite(ch, at) =>
         && d.kind.Issue? && Moves(d) == 0
         && ch.issued == at && ChallengeTimes(c, r.hold, ch)
       case VerifyCall => d.kind.Submit? && Moves(d) == 0 && Level(r) >= 1
       case VerifyWrite(v, at) =>
         && d.kind.Submit? && Moves(d) == 0 && Level(r) >= 1 && v.at == at
         && r.challenge.Some? && r.challenge.value.id == v.challengeId
         && r.challenge.value.issued <= at < r.challenge.value.expires
       case GrantCall => d.kind.Submit? && Moves(d) <= 1 && Level(r) >= 2
       case GrantWrite(g, signers, at) =>
         && d.kind.Submit? && Moves(d) <= 1 && Level(r) >= 2
         && r.verified.Some? && r.verified.value.signers == signers && r.verified.value.at <= at
         && r.challenge.Some? && g.issued == at && GrantTimes(c, r.challenge.value, g)
       case Done(Exhausted) => d.round >= Rounds(d.kind)
       case Done(Returned(out)) =>
         && ValidRecord(c, out) && Grows(out, r)
         && (out.state.GrantIssued? || out.state.Consumed? ||
             (d.kind.Issue? && (out.state.ChallengeIssued? || out.state.QuorumVerified?)))
       case Done(_) => true
  }

  predicate Inv(c: Config, s: System) {
    ValidRecord(c, s.record) && forall i :: 0 <= i < |s.drivers| ==> DriverOk(c, s.record, s.drivers[i])
  }

  // ----- one step

  ghost predicate Kept(c: Config, r: Record, next: (Record, Driver)) {
    ValidRecord(c, next.0) && Grows(r, next.0) && DriverOk(c, next.0, next.1)
  }

  lemma ReadStep(c: Config, r: Record, d: Driver, i: Input)
    requires ValidConfig(c) && ValidRecord(c, r) && DriverOk(c, r, d) && (d.pc.Top? || d.pc.Done? || i.early)
    ensures Kept(c, r, Step(c, r, d, i))
  {
  }

  lemma IssueStep(c: Config, r: Record, d: Driver, i: Input)
    requires ValidConfig(c) && ValidRecord(c, r) && DriverOk(c, r, d) && (d.pc.IssueCall? || d.pc.IssueWrite?)
    ensures Kept(c, r, Step(c, r, d, i))
  {
  }

  lemma VerifyStep(c: Config, r: Record, d: Driver, i: Input)
    requires ValidConfig(c) && ValidRecord(c, r) && DriverOk(c, r, d) && (d.pc.VerifyCall? || d.pc.VerifyWrite?)
    ensures Kept(c, r, Step(c, r, d, i))
  {
  }

  lemma GrantStep(c: Config, r: Record, d: Driver, i: Input)
    requires ValidConfig(c) && ValidRecord(c, r) && DriverOk(c, r, d) && (d.pc.GrantCall? || d.pc.GrantWrite?)
    ensures Kept(c, r, Step(c, r, d, i))
  {
  }

  /** Every step of a driver keeps the record valid and its own loop invariant. */
  lemma DriverStep(c: Config, r: Record, d: Driver, i: Input)
    requires ValidConfig(c) && ValidRecord(c, r) && DriverOk(c, r, d)
    ensures Kept(c, r, Step(c, r, d, i))
  {
    match d.pc
    case Top => ReadStep(c, r, d, i);
    case Done(_) => ReadStep(c, r, d, i);
    case IssueCall => IssueStep(c, r, d, i);
    case IssueWrite(_, _) => IssueStep(c, r, d, i);
    case VerifyCall => VerifyStep(c, r, d, i);
    case VerifyWrite(_, _) => VerifyStep(c, r, d, i);
    case GrantCall => GrantStep(c, r, d, i);
    case GrantWrite(_, _, _) => GrantStep(c, r, d, i);
  }

  lemma EnvironmentStep(c: Config, r: Record, e: Event)
    requires ValidConfig(c) && ValidRecord(c, r) && !e.Drive?
    ensures var r' := Next(c, System(r, []), e).record; ValidRecord(c, r') && Grows(r, r')
  {
  }

  /** Another party's update never breaks what a driver relies on. */
  lemma DriverStable(c: Config, r: Record, r': Record, d: Driver)
    requires ValidRecord(c, r) && ValidRecord(c, r') && Grows(r, r') && DriverOk(c, r, d)
    ensures DriverOk(c, r', d)
  {
  }

  lemma NextInv(c: Config, s: System, e: Event)
    requires ValidConfig(c) && Inv(c, s)
    ensures Inv(c, Next(c, s, e)) && Grows(s.record, Next(c, s, e).record)
    ensures |Next(c, s, e).drivers| == |s.drivers|
  {
    var s' := Next(c, s, e);
    if e.Drive? {
      if e.who < |s.drivers| { DriverStep(c, s.record, s.drivers[e.who], e.input); }
    } else {
      EnvironmentStep(c, s.record, e);
    }
    forall i | 0 <= i < |s'.drivers| ensures DriverOk(c, s'.record, s'.drivers[i]) {
      if !(e.Drive? && e.who == i) { DriverStable(c, s.record, s'.record, s.drivers[i]); }
    }
  }

  lemma {:induction false} ExecInv(c: Config, s: System, events: seq<Event>)
    requires ValidConfig(c) && Inv(c, s)
    ensures Inv(c, Exec(c, s, events)) && Grows(s.record, Exec(c, s, events).record)
    ensures |Exec(c, s, events).drivers| == |s.drivers|
    decreases |events|
  {
    if events != [] {
      var init := events[..|events| - 1];
      ExecInv(c, s, init);
      NextInv(c, Exec(c, s, init), events[|events| - 1]);
    }
  }

  // ----- every interleaving

  predicate AllStarting(s: System) {
    forall i :: 0 <= i < |s.drivers| ==> s.drivers[i] == Start(s.drivers[i].kind)
  }

  /** The events of a run that are steps of driver `i`. */
  function Own(events: seq<Event>, i: nat): nat {
    if events == [] then 0
    else
      var last := events[|events| - 1];
      Own(events[..|events| - 1], i) + if last.Drive? && last.who == i then 1 else 0
  }

  /** How far a driver is through its rounds of three steps. */
  function Position(d: Driver): nat {
    3 * d.round + (if d.pc.Top? then 0 else if d.pc.IssueCall? || d.pc.VerifyCall? || d.pc.GrantCall? then 1 else 2)
  }

  /** A driver that has not decided has rounds left, or is about to find that it has none. */
  predicate InLoop(d: Driver) {
    d.round <= Rounds(d.kind) && (!d.pc.Done? && d.round == Rounds(d.kind) ==> d.pc.Top?)
  }

  lemma StepAdvances(c: Config, r: Record, d: Driver, i: Input)
    requires InLoop(d)
    ensures var d' := Step(c, r, d, i).1; InLoop(d') && (d'.pc.Done? || Position(d) < Position(d'))
    ensures Step(c, r, d, i).1.kind == d.kind
    ensures d.pc.Done? ==> Step(c, r, d, i).1 == d
  {
  }

  /** Every own event takes a driver at least one step on, until it has decided. */
  lemma {:induction false} OwnSteps(c: Config, s: System, events: seq<Event>, i: nat)
    requires AllStarting(s) && i < |s.drivers|
    ensures |Exec(c, s, events).drivers| == |s.drivers|
    ensures var d := Exec(c, s, events).drivers[i];
            d.kind == s.drivers[i].kind && InLoop(d) && (d.pc.Done? || Own(events, i) <= Position(d))
    decreases |events|
  {
    if events != [] {
      var init, last := events[..|events| - 1], events[|events| - 1];
      OwnSteps(c, s, init, i);
      var before := Exec(c, s, init);
      if last.Drive? && last.who == i { StepAdvances(c, before.record, before.drivers[i], last.input); }
    }
  }

  /**
    In every interleaving of any number of drivers, consumers, deniers and expirers: the record
    stays valid and only grows; a driver that met no stall has used at most two rounds (issue) or
    three (submit) and is not exhausted; an exhausted driver met at least two or three stalls; a
    driver that succeeds returns a valid record in a state it serves, still part of the history.
   */
  lemma EveryRun(c: Config, s: System, events: seq<Event>, i: nat)
    requires ValidConfig(c) && ValidRecord(c, s.record) && AllStarting(s) && i < |s.drivers|
    ensures |Exec(c, s, events).drivers| == |s.drivers|
    ensures ValidRecord(c, Exec(c, s, events).record) && Grows(s.record, Exec(c, s, events).record)
    ensures var d := Exec(c, s, events).drivers[i];
            && d.round <= d.stalls + Cap(d.kind)
            && (d.pc == Done(Exhausted) ==> d.stalls >= Rounds(d.kind) - Cap(d.kind))
            && (d.pc.Done? && d.pc.result.Returned? ==>
                  && ValidRecord(c, d.pc.result.record)
                  && Grows(d.pc.result.record, Exec(c, s, events).record)
                  && d.pc.result.record.state !in {HoldPending, Expired, Denied}
                  && (d.kind.Submit? ==> d.pc.result.record.state in {GrantIssued, Consumed}))
  {
    ExecInv(c, s, events);
  }

  /**
    Every driver decides, whatever the others do: after three of its own steps for each round that
    its stalls and the record's moves can take, and in any case after three for each round it has.
   */
  lemma EveryDriverDecides(c: Config, s: System, events: seq<Event>, i: nat)
    requires ValidConfig(c) && ValidRecord(c, s.record) && AllStarting(s) && i < |s.drivers|
    ensures |Exec(c, s, events).drivers| == |s.drivers|
    ensures var d := Exec(c, s, events).drivers[i];
            Own(events, i) >= 3 * (d.stalls + Cap(d.kind) + 1) || Own(events, i) > 3 * Rounds(d.kind) ==> d.pc.Done?
  {
    EveryRun(c, s, events, i);
    OwnSteps(c, s, events, i);
  }

  /**
    In every interleaving a challenge expires at the earlier of its time to live and the lifetime of
    the hold, and a grant at the earlier of its time to live and its challenge's expiry.
   */
  lemma Lifetimes(c: Config, s: System, events: seq<Event>)
    requires ValidConfig(c) && ValidRecord(c, s.record) && AllStarting(s)
    ensures var r := Exec(c, s, events).record;
            && (r.challenge.Some? ==>
                  var ch := r.challenge.value;
                  Smaller(ch.expires, ch.issued + c.ttl, r.hold + c.maxLifetime) && r.hold + c.minHold <= ch.issued)
            && (r.grant.Some? ==>
                  r.challenge.Some? &&
                  var g := r.grant.value;
                  Smaller(g.expires, g.issued + c.grantTtl, r.challenge.value.expires) && g.issued < g.expires)
  {
    ExecInv(c, s, events);
  }

  /** Only these changes of state occur in any run, each by its own cause. */
  lemma StateChanges(c: Config, s: System, e: Event)
    requires ValidConfig(c) && Inv(c, s) && Next(c, s, e).record.state != s.record.state
    ensures var r, r' := s.record, Next(c, s, e).record;
            match (r.state, r'.state)
            case (HoldPending, ChallengeIssued) => e.Drive? && s.drivers[e.who].kind.Issue?
            case (ChallengeIssued, QuorumVerified) => e.Drive? && s.drivers[e.who].kind.Submit?
            case (QuorumVerified, GrantIssued) => e.Drive? && s.drivers[e.who].kind.Submit?
            case (GrantIssued, Consumed) => e.Consume? && r'.consumedAt == Some(e.now)
            case (_, Denied) => e.Deny? && r.state !in {Consumed, Expired}
            case (_, Expired) => e.Expire? && r.state !in {HoldPending, Consumed, Denied}
            case _ => false
  {
    if e.Drive? { DriverStep(c, s.record, s.drivers[e.who], e.input); }
  }

  /** A grant is consumed exactly by its own id, while it is issued, from its issue up to its expiry. */
  lemma ConsumeExact(c: Config, s: System, grantId: nat, now: int)
    requires ValidConfig(c) && Inv(c, s) && !s.record.state.Consumed?
    ensures Next(c, s, Consume(grantId, now)).record.state.Consumed? <==>
            && s.record.state.GrantIssued? && s.record.grant.value.id == grantId
            && s.record.grant.value.issued <= now < s.record.grant.value.expires
  {
  }

  /** A record is denied exactly while it is open, and not before its last update. */
  lemma DenyExact(c: Config, s: System, now: int)
    requires ValidConfig(c) && Inv(c, s) && !s.record.state.Denied?
    ensures Next(c, s, Deny(now)).record.state.Denied? <==>
            s.record.state !in {Consumed, Expired} && s.record.updated <= now
  {
  }

  /** A record expires exactly once its challenge, or the grant that replaced it, has run out. */
  lemma ExpireExact(c: Config, s: System, now: int)
    requires ValidConfig(c) && Inv(c, s) && !s.record.state.Expired?
    ensures Next(c, s, Expire(now)).record.state.Expired? <==>
            match s.record.state
            case ChallengeIssued => s.record.challenge.value.expires <= now
            case QuorumVerified => s.record.challenge.value.expires <= now
            case GrantIssued => s.record.grant.value.expires <= now
            case _ => false
  {
  }

  /** A consumed record went through every stage in order, inside its windows, and is final. */
  lemma ConsumedOnce(c: Config, s: System, events: seq<Event>, more: seq<Event>)
    requires ValidConfig(c) && ValidRecord(c, s.record) && AllStarting(s)
    requires Exec(c, s, events).record.state.Consumed?
    ensures var r := Exec(c, s, events).record;
            && r.challenge.Some? && r.verified.Some? && r.grant.Some? && r.consumedAt.Some?
            && r.hold + c.minHold <= r.challenge.value.issued <= r.verified.value.at
            && r.verified.value.at <= r.grant.value.issued <= r.consumedAt.value
            && r.consumedAt.value < r.grant.value.expires <= r.challenge.value.expires <= r.hold + c.maxLifetime
            && Smaller(r.challenge.value.expires, r.challenge.value.issued + c.ttl, r.hold + c.maxLifetime)
            && Smaller(r.grant.value.expires, r.grant.value.issued + c.grantTtl, r.challenge.value.expires)
    ensures Exec(c, Exec(c, s, events), more).record == Exec(c, s, events).record
  {
    ExecInv(c, s, events);
    ExecInv(c, Exec(c, s, events), more);
  }

  // ----- when the retry loop does run out

  /** The clock reading at which a call reports a conflict on a record that has not moved. */
  predicate Stalls(c: Config, kind: Kind, r: Record, now: int) {
    if kind.Issue? then r.state.HoldPending? && r.hold + c.maxLifetime <= now
    else
      && r.state.QuorumVerified? && r.verified.Some? && r.challenge.Some?
      && (now < r.verified.value.at || r.challenge.value.expires <= now)
  }

  /** A step counts a stall exactly at such a reading. */
  lemma StallExact(c: Config, r: Record, d: Driver, i: Input)
    requires ValidConfig(c) && ValidRecord(c, r) && DriverOk(c, r, d)
    ensures Step(c, r, d, i).1.stalls == d.stalls + 1 <==>
            !i.early && (d.pc.IssueCall? || d.pc.GrantCall?) && Stalls(c, d.kind, r, i.now)
  {
  }

  /** One driver alone. */
  function Alone(c: Config, r: Record, d: Driver, inputs: seq<Input>): (Record, Driver)
    decreases |inputs|
  {
    if inputs == [] then (r, d)
    else
      var (r', d') := Step(c, r, d, inputs[0]);
      Alone(c, r', d', inputs[1..])
  }

  lemma {:induction false} DoneStays(c: Config, r: Record, d: Driver, inputs: seq<Input>)
    requires d.pc.Done?
    ensures Alone(c, r, d, inputs) == (r, d)
    decreases |inputs|
  {
    if inputs != [] { DoneStays(c, r, d, inputs[1..]); }
  }

  /** What a driver that may act at once does with the record it finds, alone and without failures. */
  lemma ServedAtOnce(c: Config, kind: Kind, r: Record, inputs: seq<Input>)
    requires inputs != [] && !inputs[0].early
    ensures r.state in {GrantIssued, Consumed} ==>
            Alone(c, r, Start(kind), inputs) == (r, Finish(Start(kind), Returned(r)))
    ensures r.state in {ChallengeIssued, QuorumVerified} && kind.Issue? ==>
            Alone(c, r, Start(kind), inputs) == (r, Finish(Start(kind), Returned(r)))
    ensures r.state in {Expired, Denied} || (r.state.HoldPending? && kind.Submit?) ==>
            Alone(c, r, Start(kind), inputs) == (r, Finish(Start(kind), Refused))
  {
    var (r1, d1) := Step(c, r, Start(kind), inputs[0]);
    if d1.pc.Done? { DoneStays(c, r1, d1, inputs[1..]); }
  }

  /** The rounds whose clock readings decide: the last submit round returns a conflict either way. */
  function Deciding(kind: Kind): nat { if kind.Issue? then 3 else 4 }

  /** The call of the `k`-th round from here stalls; each round so far took a read and a call. */
  predicate RoundStalls(c: Config, kind: Kind, r: Record, inputs: seq<Input>, k: nat) {
    2 * k + 1 < |inputs| && Stalls(c, kind, r, inputs[2 * k + 1].now)
  }

  /**
    A driver alone on a record that waits for it runs out of retries exactly when the clock stalls
    it in every deciding round.
   */
  lemma {:induction false} AloneExact(c: Config, r: Record, d: Driver, inputs: seq<Input>)
    requires ValidConfig(c) && ValidRecord(c, r)
    requires d.pc.Top? && d.round <= Rounds(d.kind)
    requires if d.kind.Issue? then r.state.HoldPending? else r.state.QuorumVerified?
    requires forall k :: 0 <= k < |inputs| ==> !inputs[k].early && !inputs[k].late
    requires |inputs| >= 2 * (Rounds(d.kind) - d.round) + 2
    ensures Alone(c, r, d, inputs).1.pc == Done(Exhausted) <==>
            forall k :: 0 <= k < Deciding(d.kind) - d.round ==> RoundStalls(c, d.kind, r, inputs, k)
    decreases Rounds(d.kind) - d.round
  {
    var (r1, d1) := Step(c, r, d, inputs[0]);
    var t1 := inputs[1..];
    if d.round == Rounds(d.kind) {
      DoneStays(c, r1, d1, t1);
    } else {
      var (r2, d2) := Step(c, r1, d1, t1[0]);
      var t2 := t1[1..];
      assert t1[0] == inputs[1] && t2 == inputs[2..];
      if Stalls(c, d.kind, r, inputs[1].now) {
        AloneExact(c, r, d2, t2);
        assert RoundStalls(c, d.kind, r, inputs, 0);
        forall k | 0 < k < Deciding(d.kind) - d.round
          ensures RoundStalls(c, d.kind, r, inputs, k) == RoundStalls(c, d.kind, r, t2, k - 1)
        {
        }
        forall k | 0 <= k < Deciding(d.kind) - d2.round
          ensures RoundStalls(c, d.kind, r, t2, k) == RoundStalls(c, d.kind, r, inputs, k + 1)
        {
        }
      } else {
        AloneUnstalled(c, r, d, inputs);
        assert !RoundStalls(c, d.kind, r, inputs, 0);
      }
    }
  }

  /** The record gained the challenge of this input, and nothing else of it changed. */
  predicate WroteChallenge(c: Config, r: Record, r': Record, i: Input) {
    && r'.challenge.Some? && r'.challenge.value.id == i.nonce && r'.challenge.value.issued == i.now
    && Smaller(r'.challenge.value.expires, i.now + c.ttl, r.hold + c.maxLifetime)
    && r' == r.(state := ChallengeIssued, challenge := r'.challenge, expires := Some(r'.challenge.value.expires),
                updated := i.now, version := r.version + 1)
  }

  /** The record gained the grant of this input, and nothing else of it changed. */
  predicate WroteGrant(c: Config, r: Record, r': Record, i: Input)
    requires r.challenge.Some?
  {
    && r'.grant.Some? && r'.grant.value.id == i.nonce && r'.grant.value.issued == i.now
    && Smaller(r'.grant.value.expires, i.now + c.grantTtl, r.challenge.value.expires)
    && r' == r.(state := GrantIssued, grant := r'.grant, expires := Some(r'.grant.value.expires),
                updated := i.now, version := r.version + 1)
  }

  /** An unstalled call decides a lone driver, unless it was the last submit round. */
  lemma AloneUnstalled(c: Config, r: Record, d: Driver, inputs: seq<Input>)
    requires ValidConfig(c) && ValidRecord(c, r)
    requires d.pc.Top? && d.round < Rounds(d.kind)
    requires if d.kind.Issue? then r.state.HoldPending? else r.state.QuorumVerified?
    requires |inputs| >= 4 && forall k :: 0 <= k < |inputs| ==> !inputs[k].early && !inputs[k].late
    requires !Stalls(c, d.kind, r, inputs[1].now)
    ensures Alone(c, r, d, inputs).1.pc == Done(Exhausted) <==> d.kind.Submit? && d.round == 4
    ensures d.kind.Submit? ==>
            && Alone(c, r, d, inputs).0.state.GrantIssued? && WroteGrant(c, r, Alone(c, r, d, inputs).0, inputs[1])
            && (d.round < 4 ==> Alone(c, r, d, inputs).1.pc == Done(Returned(Alone(c, r, d, inputs).0)))
    ensures d.kind.Issue? ==>
            var out := Alone(c, r, d, inputs);
            if inputs[1].now < r.hold + c.minHold then out == (r, Finish(d, Failed))
            else out.0.state.ChallengeIssued? && out.1 == Finish(d, Returned(out.0))
                 && WroteChallenge(c, r, out.0, inputs[1])
  {
    var t1, t2, t3, t4 := inputs[1..], inputs[2..], inputs[3..], inputs[4..];
    assert t1[1..] == t2 && t2[1..] == t3 && t3[1..] == t4;
    assert t1[0] == inputs[1] && t2[0] == inputs[2] && t3[0] == inputs[3];
    var s1 := Step(c, r, d, inputs[0]);
    var s2 := Step(c, s1.0, s1.1, inputs[1]);
    var s3 := Step(c, s2.0, s2.1, inputs[2]);
    var s4 := Step(c, s3.0, s3.1, inputs[3]);
    if d.kind.Issue? {
      UnstalledIssue(c, r, d, inputs);
    } else {
      UnstalledSubmit(c, r, d, inputs);
    }
    DoneStays(c, s4.0, s4.1, t4);
    assert Alone(c, s3.0, s3.1, t3) == Alone(c, s4.0, s4.1, t4);
    assert Alone(c, s2.0, s2.1, t2) == Alone(c, s3.0, s3.1, t3);
    assert Alone(c, s1.0, s1.1, t1) == Alone(c, s2.0, s2.1, t2);
  }

  function FourSteps(c: Config, r: Record, d: Driver, inputs: seq<Input>): (Record, Driver)
    requires |inputs| >= 4
  {
    var s1 := Step(c, r, d, inputs[0]);
    var s2 := Step(c, s1.0, s1.1, inputs[1]);
    var s3 := Step(c, s2.0, s2.1, inputs[2]);
    Step(c, s3.0, s3.1, inputs[3])
  }

  lemma UnstalledIssue(c: Config, r: Record, d: Driver, inputs: seq<Input>)
    requires ValidConfig(c) && ValidRecord(c, r) && d.kind.Issue? && d.pc.Top? && d.round < 3 && r.state.HoldPending?
    requires |inputs| >= 4 && forall k :: 0 <= k < 4 ==> !inputs[k].early && !inputs[k].late
    requires !Stalls(c, d.kind, r, inputs[1].now)
    ensures var s4 := FourSteps(c, r, d, inputs);
            && s4.1.pc.Done? && s4.1.pc != Done(Exhausted)
            && (if inputs[1].now < r.hold + c.minHold then s4 == (r, Finish(d, Failed))
                else s4.0.state.ChallengeIssued? && s4.1 == Finish(d, Returned(s4.0))
                     && WroteChallenge(c, r, s4.0, inputs[1]))
  {
  }

  lemma UnstalledSubmit(c: Config, r: Record, d: Driver, inputs: seq<Input>)
    requires ValidConfig(c) && ValidRecord(c, r) && d.kind.Submit? && d.pc.Top? && d.round < 5
    requires r.state.QuorumVerified?
    requires |inputs| >= 4 && forall k :: 0 <= k < 4 ==> !inputs[k].early && !inputs[k].late
    requires !Stalls(c, d.kind, r, inputs[1].now)
    ensures var s4 := FourSteps(c, r, d, inputs);
            && s4.0.state.GrantIssued? && s4.1.pc.Done? && (s4.1.pc == Done(Exhausted) <==> d.round == 4)
            && WroteGrant(c, r, s4.0, inputs[1])
            && (d.round < 4 ==> s4.1.pc == Done(Returned(s4.0)))
  {
  }

  /** The record once a quorum was verified at this input. */
  function AfterVerify(r: Record, i: Input): Record
    requires r.challenge.Some?
  {
    r.(state := QuorumVerified, verified := Some(Verified(r.challenge.value.id, i.now, i.nonce)),
       updated := i.now, version := r.version + 1)
  }

  predicate InWindow(r: Record, now: int)
    requires r.challenge.Some?
  {
    r.challenge.value.issued <= now < r.challenge.value.expires
  }

  /** A quorum verified in the window of its challenge takes a lone submit driver to the next round. */
  lemma AloneVerifies(c: Config, r: Record, d: Driver, inputs: seq<Input>)
    requires ValidConfig(c) && ValidRecord(c, r) && r.state.ChallengeIssued?
    requires d.kind.Submit? && d.pc.Top? && d.round < 5
    requires |inputs| >= 3 && forall k :: 0 <= k < 3 ==> !inputs[k].early && !inputs[k].late
    ensures InWindow(r, inputs[1].now) ==>
            && ValidRecord(c, AfterVerify(r, inputs[1]))
            && Alone(c, r, d, inputs) == Alone(c, AfterVerify(r, inputs[1]), Retry(d), inputs[3..])
    ensures !InWindow(r, inputs[1].now) ==> Alone(c, r, d, inputs) == (r, Finish(d, Failed))
  {
    var (r1, d1) := Step(c, r, d, inputs[0]);
    var (r2, d2) := Step(c, r1, d1, inputs[1]);
    var t1, t2, t3 := inputs[1..], inputs[2..], inputs[3..];
    assert t1[1..] == t2 && t2[1..] == t3 && t1[0] == inputs[1] && t2[0] == inputs[2];
    assert Alone(c, r, d, inputs) == Alone(c, r2, d2, t2);
    if InWindow(r, inputs[1].now) {
      assert Step(c, r2, d2, inputs[2]) == (AfterVerify(r, inputs[1]), Retry(d));
    } else {
      DoneStays(c, r2, d2, t2);
    }
  }

  /** When a driver that starts on this record alone, with no outside failure, runs out of retries. */
  ghost predicate RunsOut(c: Config, kind: Kind, r: Record, inputs: seq<Input>) {
    if kind.Submit? && r.state.ChallengeIssued? then
      && |inputs| >= 3 && r.challenge.Some? && InWindow(r, inputs[1].now)
      && forall k :: 0 <= k < 3 ==> RoundStalls(c, kind, AfterVerify(r, inputs[1]), inputs[3..], k)
    else
      && r.state == (if kind.Issue? then HoldPending else QuorumVerified)
      && forall k :: 0 <= k < Deciding(kind) ==> RoundStalls(c, kind, r, inputs, k)
  }

  /**
    On every record: a lone driver is exhausted exactly when the record waits for it and the clock
    stalls it in three rounds (issue, or submit after its own verification) or in four (submit on a
    verified quorum).
   */
  lemma LoneDriverExact(c: Config, kind: Kind, r: Record, inputs: seq<Input>)
    requires ValidConfig(c) && ValidRecord(c, r)
    requires |inputs| >= 13 && forall k :: 0 <= k < |inputs| ==> !inputs[k].early && !inputs[k].late
    ensures Alone(c, r, Start(kind), inputs).1.pc == Done(Exhausted) <==> RunsOut(c, kind, r, inputs)
  {
    var d := Start(kind);
    if r.state == (if kind.Issue? then HoldPending else QuorumVerified) {
      AloneExact(c, r, d, inputs);
    } else if kind.Submit? && r.state.ChallengeIssued? {
      AloneVerifies(c, r, d, inputs);
      if InWindow(r, inputs[1].now) { AloneExact(c, AfterVerify(r, inputs[1]), Retry(d), inputs[3..]); }
    } else {
      var (r1, d1) := Step(c, r, d, inputs[0]);
      DoneStays(c, r1, d1, inputs[1..]);
    }
  }

  /** Stalled rounds leave the record as it is. */
  lemma {:induction false} StalledRounds(c: Config, r: Record, d: Driver, inputs: seq<Input>, n: nat)
    requires ValidRecord(c, r) && r.state.QuorumVerified? && d.kind.Submit? && d.pc.Top? && d.round + n <= 5
    requires |inputs| >= 2 * n && forall k :: 0 <= k < |inputs| ==> !inputs[k].early
    requires forall k :: 0 <= k < n ==> RoundStalls(c, Submit, r, inputs, k)
    ensures Alone(c, r, d, inputs) == Alone(c, r, d.(round := d.round + n, stalls := d.stalls + n), inputs[2 * n..])
    decreases n
  {
    if n == 0 {
      assert inputs[0..] == inputs;
    } else {
      var t1, t2 := inputs[1..], inputs[2..];
      var (r1, d1) := Step(c, r, d, inputs[0]);
      assert RoundStalls(c, Submit, r, inputs, 0);
      assert t1[0] == inputs[1] && t1[1..] == t2;
      assert Alone(c, r, d, inputs) == Alone(c, r, Stall(d), t2);
      forall k | 0 <= k < n - 1 ensures RoundStalls(c, Submit, r, t2, k) {
        assert RoundStalls(c, Submit, r, inputs, k + 1);
      }
      StalledRounds(c, r, Stall(d), t2, n - 1);
      assert t2[2 * (n - 1)..] == inputs[2 * n..];
    }
  }

  /** After stalls in all rounds but the last, the last call decides whether the grant is written. */
  lemma {:induction false} LastRound(c: Config, r: Record, d: Driver, inputs: seq<Input>, n: nat)
    requires ValidConfig(c) && ValidRecord(c, r) && r.state.QuorumVerified?
    requires d.kind.Submit? && d.pc.Top? && d.round + n == 4
    requires |inputs| >= 2 * n + 4 && forall k :: 0 <= k < |inputs| ==> !inputs[k].early && !inputs[k].late
    requires forall k :: 0 <= k < n ==> RoundStalls(c, Submit, r, inputs, k)
    ensures var out := Alone(c, r, d, inputs);
            && out.1.pc == Done(Exhausted)
            && (if RoundStalls(c, Submit, r, inputs, n) then out.0 == r else out.0.state.GrantIssued?)
  {
    if RoundStalls(c, Submit, r, inputs, n) {
      StalledRounds(c, r, d, inputs, n + 1);
      var tail := inputs[2 * (n + 1)..];
      var d' := d.(round := 5, stalls := d.stalls + n + 1);
      DoneStays(c, r, Finish(d', Exhausted), tail[1..]);
    } else {
      StalledRounds(c, r, d, inputs, n);
      AloneUnstalled(c, r, d.(round := 4, stalls := d.stalls + n), inputs[2 * n..]);
    }
  }

  /** The call of a lone submit driver's last round stalls. */
  ghost predicate LastStalls(c: Config, r: Record, inputs: seq<Input>) {
    if r.state.ChallengeIssued? && r.challenge.Some? && |inputs| >= 3 then
      RoundStalls(c, Submit, AfterVerify(r, inputs[1]), inputs[3..], 3)
    else RoundStalls(c, Submit, r, inputs, 4)
  }

  /**
    When a submit that reports a conflict has written the grant: on every record, a lone submit
    driver ends exhausted with the grant issued exactly when it runs out of retries and the call of
    its last round does not stall; exhausted without it, the record is left as the driver found it
    or as its own verification made it.
   */
  lemma GrantedYetExhausted(c: Config, r: Record, inputs: seq<Input>)
    requires ValidConfig(c) && ValidRecord(c, r)
    requires |inputs| >= 15 && forall k :: 0 <= k < |inputs| ==> !inputs[k].early && !inputs[k].late
    ensures var (r', d') := Alone(c, r, Start(Submit), inputs);
            && (d'.pc == Done(Exhausted) && r'.state.GrantIssued? <==>
                RunsOut(c, Submit, r, inputs) && !LastStalls(c, r, inputs))
            && (d'.pc == Done(Exhausted) && LastStalls(c, r, inputs) ==>
                r' == if r.state.ChallengeIssued? && r.challenge.Some? then AfterVerify(r, inputs[1]) else r)
  {
    LoneDriverExact(c, Submit, r, inputs);
    if RunsOut(c, Submit, r, inputs) {
      if r.state.ChallengeIssued? {
        AloneVerifies(c, r, Start(Submit), inputs);
        LastRound(c, AfterVerify(r, inputs[1]), Retry(Start(Submit)), inputs[3..], 3);
      } else {
        LastRound(c, r, Start(Submit), inputs, 4);
      }
    }
  }

  /** A clock that reads `before` for the first `n` inputs and `after` from then on. */
  function Clock(before: int, n: nat, after: int): seq<Input> {
    seq(15, k => Input(if k < n then before else after, 0, false, false))
  }

  /** One such run: a quorum verified at 2, a clock that lags at 1 for four rounds and then reads 3. */
  lemma LaggingClockRun()
    ensures var c := Config(1, 10, 100, 5);
            var r := Record(QuorumVerified, 0, 2, Some(11), Some(Challenge(7, 1, 11)), Some(Verified(7, 2, 9)),
                            None, None, 3);
            var (r', d') := Alone(c, r, Start(Submit), Clock(1, 8, 3));
            ValidRecord(c, r) && r'.state.GrantIssued? && d'.pc == Done(Exhausted)
  {
    var c := Config(1, 10, 100, 5);
    var r := Record(QuorumVerified, 0, 2, Some(11), Some(Challenge(7, 1, 11)), Some(Verified(7, 2, 9)), None, None, 3);
    LastRound(c, r, Start(Submit), Clock(1, 8, 3), 4);
  }

  /** The exhausted return is reachable: a hold left past its lifetime refuses every challenge. */
  lemma LapsedHoldExhausts(c: Config, start: int, now: int)
    requires ValidConfig(c) && start + c.maxLifetime <= now
    ensures Alone(c, NewHold(start), Start(Issue), seq(8, _ => Input(now, 0, false, false))).1.pc == Done(Exhausted)
  {
    AloneExact(c, NewHold(start), Start(Issue), seq(8, _ => Input(now, 0, false, false)));
  }
}
