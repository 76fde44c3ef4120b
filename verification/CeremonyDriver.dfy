/**
  The two request drivers in their own form: bounded loops over a controller whose record other
  requests may advance before every access.
 */
module CeremonyDriver {
  import opened Ceremony

  /** The inputs of one round: the read, the controller call and its guarded update. */
  datatype Round = Round(get: Input, call: Input, write: Input)

  datatype Reply = Ok(record: Record) | Conflict | Error

  /** The level of the record that a prepared update needs. */
  function PreparedFor(d: Driver): nat
    requires d.pc.IssueWrite? || d.pc.VerifyWrite? || d.pc.GrantWrite?
  {
    if d.pc.IssueWrite? then 0 else if d.pc.VerifyWrite? then 1 else 2
  }

  /** The clock reading was before the verification or past the challenge. */
  predicate OffWindow(r: Record, now: int) {
    r.verified.Some? && r.challenge.Some? && (now < r.verified.value.at || r.challenge.value.expires <= now)
  }

  lemma GrowsOn(r: Record, r': Record, r'': Record)
    requires Grows(r, r') && Grows(r', r'')
    ensures Grows(r, r'')
  {
  }

  /** What the number of moves a submission has met says of the record. */
  predicate Moved(r: Record, moves: int) {
    0 <= moves <= 2 && (moves >= 1 ==> Level(r) >= 2) && (moves == 2 ==> Level(r) == 3)
  }

  lemma MovedOn(r: Record, r': Record, moves: int)
    requires Moved(r, moves) && Level(r) <= Level(r') && Level(r') >= 2
    ensures Moved(r', moves) && (Level(r') > Level(r) ==> Moved(r', moves + 1))
  {
  }

  lemma OffWindowStays(r: Record, r': Record, now: int)
    requires OffWindow(r, now) && Grows(r, r')
    ensures OffWindow(r', now)
  {
  }

  class Controller {
    const config: Config
    var record: Record

    ghost predicate Valid()
      reads this
    {
      ValidConfig(config) && ValidRecord(config, record)
    }

    /** Any number of updates by other requests. */
    method Interfere()
      requires Valid()
      modifies this
      ensures Valid() && Grows(old(record), record)
    {
      var next: Record :| ValidRecord(config, next) && Grows(record, next);
      record := next;
    }

    method Get(i: Input) returns (reply: Reply)
      requires Valid()
      modifies this
      ensures Valid() && Grows(old(record), record)
      ensures reply == (if i.early then Error else Ok(record))
    {
      Interfere();
      reply := if i.early then Error else Ok(record);
    }

    /**
      Issues the challenge. A conflict means that the record has moved on, or that the hold had
      outlived its maximum when the clock was read.
     */
    method IssueChallenge(t: Round) returns (reply: Reply)
      requires Valid()
      modifies this
      ensures Valid() && Grows(old(record), record)
      ensures reply.Ok? ==> reply.record == record && record.state.ChallengeIssued?
      ensures reply.Conflict? ==> Level(record) >= 1 || record.hold + config.maxLifetime <= t.call.now
    {
      var seen := Get(t.call);
      if !seen.Ok? {
        return Error;
      }
      var d := CallIssue(config, seen.record, Driver(Issue, IssueCall, 0, 0), t.call);
      if !d.pc.IssueWrite? {
        return if d.pc.Top? then Conflict else Error;
      }
      Interfere();
      reply := Write(d, t.write);
    }

    /** The guarded update that a call prepared, as one atomic step of the driver. */
    method Write(d: Driver, i: Input) returns (reply: Reply)
      requires Valid() && (d.pc.IssueWrite? || d.pc.VerifyWrite? || d.pc.GrantWrite?) && DriverOk(config, record, d)
      modifies this
      ensures Valid() && Grows(old(record), record)
      ensures record == Step(config, old(record), d, i).0
      ensures reply.Error? <==> i.early
      ensures reply.Ok? ==> reply.record == record && record.version == old(record).version + 1
      ensures reply.Conflict? ==> record == old(record) && Level(record) > PreparedFor(d)
      ensures reply.Ok? ==> Level(record) == PreparedFor(d) + 1
    {
      DriverStep(config, record, d, i);
      if i.early {
        return Error;
      }
      var (r, next) := Step(config, record, d, i);
      reply := if r == record then Conflict else Ok(r);
      record := r;
    }

    method VerifyQuorum(t: Round) returns (reply: Reply)
      requires Valid() && Level(record) >= 1
      modifies this
      ensures Valid() && Grows(old(record), record)
      ensures !reply.Error? ==> Level(record) >= 2
    {
      var seen := Get(t.call);
      if !seen.Ok? {
        return Error;
      }
      var d := CallVerify(config, seen.record, Driver(Submit, VerifyCall, 0, 0), t.call);
      if !d.pc.VerifyWrite? {
        return if d.pc.Top? then Conflict else Error;
      }
      Interfere();
      reply := Write(d, t.write);
    }

    method IssueGrant(t: Round) returns (reply: Reply)
      requires Valid() && Level(record) >= 2
      modifies this
      ensures Valid() && Grows(old(record), record)
      ensures reply.Ok? ==> Level(record) == 3
      ensures reply.Conflict? ==> Level(record) == 3 || OffWindow(record, t.call.now)
    {
      var seen := Get(t.call);
      if !seen.Ok? {
        return Error;
      }
      var d := CallGrant(config, seen.record, Driver(Submit, GrantCall, 0, 0), t.call);
      if !d.pc.GrantWrite? {
        return if d.pc.Top? then Conflict else Error;
      }
      Interfere();
      reply := Write(d, t.write);
    }

    /** Runs out of retries only if the hold had lapsed at the readings of both earlier rounds. */
    method IssueApprovalChallenge(rounds: seq<Round>) returns (res: Result)
      requires Valid() && |rounds| == 3
      modifies this
      ensures Valid() && Grows(old(record), record)
      ensures res.Returned? ==> res.record == record && record.state !in {HoldPending, Expired, Denied}
      ensures res.Exhausted? ==> record.hold + config.maxLifetime <= rounds[0].call.now
      ensures res.Exhausted? ==> record.hold + config.maxLifetime <= rounds[1].call.now
    {
      for round := 0 to 3
        invariant Valid() && Grows(old(record), record)
        invariant forall k :: 0 <= k < round ==>
          record.hold + config.maxLifetime <= rounds[k].call.now || (k == round - 1 && Level(record) >= 1)
      {
        var seen := Get(rounds[round].get);
        if !seen.Ok? {
          return Failed;
        }
        match seen.record.state
        case HoldPending =>
          var reply := IssueChallenge(rounds[round]);
          if reply.Ok? {
            return Returned(reply.record);
          }
          if reply.Error? {
            return Failed;
          }
        case ChallengeIssued => return Returned(seen.record);
        case QuorumVerified => return Returned(seen.record);
        case GrantIssued => return Returned(seen.record);
        case Consumed => return Returned(seen.record);
        case _ => return Refused;
      }
      res := Exhausted;
    }

    /** The two states that submission serves: verify the quorum, or issue the grant. */
    method Advance(state: State, t: Round) returns (reply: Reply)
      requires Valid() && record.state == state && (state.ChallengeIssued? || state.QuorumVerified?)
      modifies this
      ensures Valid() && Grows(old(record), record)
      ensures !reply.Error? ==>
              Level(record) > Level(old(record)) || (state.QuorumVerified? && OffWindow(record, t.call.now))
    {
      if state.ChallengeIssued? {
        reply := VerifyQuorum(t);
      } else {
        reply := IssueGrant(t);
      }
    }

    /**
      One round of submission. A round that does not decide leaves the record verified at least, and
      moved on unless the clock was read outside the grant window.
     */
    method SubmitRound(t: Round) returns (decided: bool, res: Result)
      requires Valid()
      modifies this
      ensures Valid() && Grows(old(record), record)
      ensures decided ==> !res.Exhausted?
      ensures decided && res.Returned? ==> res.record == record && record.state in {GrantIssued, Consumed}
      ensures !decided ==> Level(record) >= 2 && (Level(record) > Level(old(record)) || OffWindow(record, t.call.now))
    {
      var seen := Get(t.get);
      if !seen.Ok? {
        return true, Failed;
      }
      var state := seen.record.state;
      if state.GrantIssued? || state.Consumed? {
        return true, Returned(seen.record);
      }
      if !state.ChallengeIssued? && !state.QuorumVerified? {
        return true, Refused;
      }
      var advanced := Advance(state, t);
      if advanced.Error? {
        return true, Failed;
      }
      decided, res := false, Failed;
    }

    /** Runs out of retries only if three of its rounds read the clock outside the grant window. */
    method SubmitApprovalAssertions(rounds: seq<Round>) returns (res: Result, ghost stalled: set<nat>)
      requires Valid() && |rounds| == 5
      modifies this
      ensures Valid() && Grows(old(record), record)
      ensures res.Returned? ==> res.record == record && record.state in {GrantIssued, Consumed}
      ensures forall k :: k in stalled ==> k < 5 && OffWindow(record, rounds[k].call.now)
      ensures res.Exhausted? ==> |stalled| >= 3
    {
      stalled := {};
      ghost var moves := 0;
      for round := 0 to 5
        invariant Valid() && Grows(old(record), record)
        invariant moves + |stalled| == round
        invariant forall k :: k in stalled ==> k < round && OffWindow(record, rounds[k].call.now)
        invariant Moved(record, moves)
      {
        var decided;
        ghost var before := record;
        decided, res := SubmitRound(rounds[round]);
        GrowsOn(old(record), before, record);
        forall k | k in stalled ensures OffWindow(record, rounds[k].call.now) {
          OffWindowStays(before, record, rounds[k].call.now);
        }
        if decided {
          return;
        }
        MovedOn(before, record, moves);
        if OffWindow(record, rounds[round].call.now) {
          assert round !in stalled;
          stalled := stalled + {round};
        } else {
          moves := moves + 1;
        }
      }
      res := Exhausted;
    }
  }
}
