/**
 * Polling a load-balancer object until it reaches a status (`timedWait`) and polling a
 * pool's members until all are ACTIVE (`timedWaitForAll`), openstack.go. Time is not
 * modelled by a clock: each sleep adds `WaitInterval` seconds to the waited total, and what
 * each poll answers is an input sequence. When that sequence runs out the loop would poll
 * again; the model then stops with `StillPolling`.
 */
module OpenStackWait {
  import opened Wrappers
  import opened OpenStackCommon

  const LBTimeout: nat := 300
  const WaitInterval: nat := 5

  /** What one fetch of the object answers. */
  datatype Poll = FetchFailed | Observed(status: string)

  datatype WaitResult = Reached | ErrorStatus | TimedOut | StillPolling

  /** The outcome of a wait, how many polls it consumed and how many seconds it slept. */
  datatype Trace = Trace(result: WaitResult, used: nat, waited: nat)

  /** The error `timedWait` returns for an outcome (nil for Reached). */
  function WaitError(r: WaitResult): Option<Error> {
    match r
    case Reached => None
    case ErrorStatus => Some(ErrLBErrorStatus)
    case TimedOut => Some(ErrLBTimedOut)
    case StillPolling => Some(NoMoreAnswers)
  }

  /** The object kinds `timedWait` knows how to fetch. */
  predicate Fetchable(kind: string) {
    kind in {"pool", "member", "vip"}
  }

  // ---------------------------------------------------------------------------
  // timedWait
  // ---------------------------------------------------------------------------

  /**
   * `timedWait` from the state where `used` polls were consumed and `waited` seconds slept.
   * A failed fetch is retried at once, without sleeping; an unknown kind is never fetched
   * and compares the empty status.
   */
  function WaitFrom(kind: string, desired: string, polls: seq<Poll>, used: nat, waited: nat): (t: Trace)
    requires used <= |polls| && waited <= LBTimeout && waited % WaitInterval == 0
    ensures used <= t.used <= |polls| && waited <= t.waited <= LBTimeout
    decreases |polls| - used, LBTimeout - waited
  {
    if Fetchable(kind) then
      if used == |polls| then Trace(StillPolling, used, waited)
      else match polls[used]
        case FetchFailed => WaitFrom(kind, desired, polls, used + 1, waited)
        case Observed(status) => Compare(kind, desired, polls, used + 1, waited, status)
    else Compare(kind, desired, polls, used, waited, "")
  }

  /** The checks after a status is known: desired, ERROR, the timeout, else sleep and poll again. */
  function Compare(kind: string, desired: string, polls: seq<Poll>, used: nat, waited: nat, status: string): (t: Trace)
    requires used <= |polls| && waited <= LBTimeout && waited % WaitInterval == 0
    ensures used <= t.used <= |polls| && waited <= t.waited <= LBTimeout
    decreases |polls| - used, LBTimeout - waited, 0
  {
    if status == desired then Trace(Reached, used, waited)
    else if status == ErrorState then Trace(ErrorStatus, used, waited)
    else if waited >= LBTimeout then Trace(TimedOut, used, waited)
    else WaitFrom(kind, desired, polls, used, waited + WaitInterval)
  }

  /** `timedWait`: poll the object until it reaches `desired`, is in ERROR, or 300 seconds have been slept. */
  method TimedWait(kind: string, desired: string, polls: seq<Poll>) returns (err: Option<Error>, t: Trace)
    ensures t == WaitFrom(kind, desired, polls, 0, 0)
    ensures err == WaitError(t.result)
  {
    var used: nat, waited: nat := 0, 0;
    var status := "";
    while true
      invariant used <= |polls| && waited <= LBTimeout && waited % WaitInterval == 0
      invariant !Fetchable(kind) ==> status == ""
      invariant WaitFrom(kind, desired, polls, used, waited) == WaitFrom(kind, desired, polls, 0, 0)
      decreases |polls| - used, LBTimeout - waited
    {
      if Fetchable(kind) {
        if used == |polls| {
          t := Trace(StillPolling, used, waited);
          err := Some(NoMoreAnswers);
          return;
        }
        var poll := polls[used];
        if poll.FetchFailed? {
          used := used + 1;
          continue;
        }
        status := poll.status;
        used := used + 1;
      }
      assert WaitFrom(kind, desired, polls, 0, 0) == Compare(kind, desired, polls, used, waited, status);
      if status == desired {
        t := Trace(Reached, used, waited);
        return None, t;
      } else if status == ErrorState {
        t := Trace(ErrorStatus, used, waited);
        return Some(ErrLBErrorStatus), t;
      }
      if waited >= LBTimeout {
        t := Trace(TimedOut, used, waited);
        return Some(ErrLBTimedOut), t;
      }
      waited := waited + WaitInterval;
    }
  }

  /** The statuses the fetches observed, failed fetches dropped. */
  function Observations(polls: seq<Poll>): (obs: seq<string>)
    ensures |obs| <= |polls|
  {
    if polls == [] then []
    else (if polls[0].Observed? then [polls[0].status] else []) + Observations(polls[1..])
  }

  /**
   * A reference definition of waiting on a sequence of observed statuses with `budget`
   * sleeps left: the first status that is the desired one or ERROR decides; a status that
   * is neither costs a sleep, and with no sleep left the wait has timed out.
   */
  function Outcome(obs: seq<string>, desired: string, budget: nat): WaitResult {
    if obs == [] then StillPolling
    else if obs[0] == desired then Reached
    else if obs[0] == ErrorState then ErrorStatus
    else if budget == 0 then TimedOut
    else Outcome(obs[1..], desired, budget - 1)
  }

  /**
   * For the kinds it fetches, `timedWait` is the reference wait over the observed statuses
   * with 60 sleeps: failed fetches change nothing but the number of polls.
   */
  lemma {:induction false} WaitIsOutcome(kind: string, desired: string, polls: seq<Poll>, used: nat, n: nat)
    requires Fetchable(kind)
    requires used <= |polls| && n <= LBTimeout / WaitInterval
    ensures WaitFrom(kind, desired, polls, used, n * WaitInterval).result
      == Outcome(Observations(polls[used..]), desired, LBTimeout / WaitInterval - n)
    decreases |polls| - used, LBTimeout / WaitInterval - n
  {
    if used < |polls| {
      assert polls[used..][1..] == polls[used + 1..];
      assert polls[used..][0] == polls[used];
      match polls[used]
      case FetchFailed =>
        assert Observations(polls[used..]) == Observations(polls[used + 1..]);
        WaitIsOutcome(kind, desired, polls, used + 1, n);
      case Observed(status) =>
        if status != desired && status != ErrorState && n < LBTimeout / WaitInterval {
          assert n * WaitInterval + WaitInterval == (n + 1) * WaitInterval;
          WaitIsOutcome(kind, desired, polls, used + 1, n + 1);
        }
    }
  }

  /** The reference wait times out only after `budget + 1` statuses that were neither desired nor ERROR. */
  lemma {:induction false} OutcomeTimedOut(obs: seq<string>, desired: string, budget: nat)
    ensures Outcome(obs, desired, budget) == TimedOut <==>
      budget < |obs| && forall k :: 0 <= k <= budget ==> obs[k] != desired && obs[k] != ErrorState
    decreases budget
  {
    if obs != [] && obs[0] != desired && obs[0] != ErrorState && budget > 0 {
      OutcomeTimedOut(obs[1..], desired, budget - 1);
      if budget - 1 < |obs[1..]| && forall k :: 0 <= k <= budget - 1 ==> obs[1..][k] != desired && obs[1..][k] != ErrorState {
        forall k | 0 <= k <= budget ensures obs[k] != desired && obs[k] != ErrorState {
          if k > 0 { assert obs[k] == obs[1..][k - 1]; }
        }
      }
      if budget < |obs| && forall k :: 0 <= k <= budget ==> obs[k] != desired && obs[k] != ErrorState {
        forall k | 0 <= k <= budget - 1 ensures obs[1..][k] != desired && obs[1..][k] != ErrorState {
          assert obs[1..][k] == obs[k + 1];
        }
      }
    }
  }

  /** Whether `obs[i]` is the desired status and no earlier status was desired or ERROR. */
  predicate FirstDecisiveIsDesired(obs: seq<string>, desired: string, i: int) {
    0 <= i < |obs| && obs[i] == desired
    && forall k :: 0 <= k < i ==> obs[k] != desired && obs[k] != ErrorState
  }

  lemma {:induction false} OutcomeReachedComplete(obs: seq<string>, desired: string, budget: nat, i: nat)
    requires i <= budget && FirstDecisiveIsDesired(obs, desired, i)
    ensures Outcome(obs, desired, budget) == Reached
    decreases i
  {
    if i > 0 {
      assert obs[0] != desired && obs[0] != ErrorState;
      assert FirstDecisiveIsDesired(obs[1..], desired, i - 1);
      OutcomeReachedComplete(obs[1..], desired, budget - 1, i - 1);
    }
  }

  lemma {:induction false} OutcomeReachedSound(obs: seq<string>, desired: string, budget: nat)
    requires Outcome(obs, desired, budget) == Reached
    ensures exists i :: i <= budget && FirstDecisiveIsDesired(obs, desired, i)
    decreases budget
  {
    if obs[0] == desired {
      assert FirstDecisiveIsDesired(obs, desired, 0);
    } else {
      OutcomeReachedSound(obs[1..], desired, budget - 1);
      var i :| i <= budget - 1 && FirstDecisiveIsDesired(obs[1..], desired, i);
      forall k | 0 <= k < i + 1 ensures obs[k] != desired && obs[k] != ErrorState {
        if k > 0 { assert obs[k] == obs[1..][k - 1]; }
      }
      assert FirstDecisiveIsDesired(obs, desired, i + 1);
    }
  }

  /**
   * The reference wait reaches the desired status exactly when it is observed within
   * `budget + 1` statuses and nothing before it was desired or ERROR.
   */
  lemma OutcomeReached(obs: seq<string>, desired: string, budget: nat)
    ensures Outcome(obs, desired, budget) == Reached <==>
      exists i :: i <= budget && FirstDecisiveIsDesired(obs, desired, i)
  {
    if Outcome(obs, desired, budget) == Reached {
      OutcomeReachedSound(obs, desired, budget);
    }
    if exists i :: i <= budget && FirstDecisiveIsDesired(obs, desired, i) {
      var i :| i <= budget && FirstDecisiveIsDesired(obs, desired, i);
      OutcomeReachedComplete(obs, desired, budget, i);
    }
  }

  /** `timedWait` returns nil for a fetched kind exactly when one of the first 61 observed statuses is the desired one and none before it was ERROR. */
  lemma TimedWaitReached(kind: string, desired: string, polls: seq<Poll>)
    requires Fetchable(kind)
    ensures WaitFrom(kind, desired, polls, 0, 0).result == Reached <==>
      exists i :: i <= 60 && FirstDecisiveIsDesired(Observations(polls), desired, i)
  {
    WaitIsOutcome(kind, desired, polls, 0, 0);
    assert polls[0..] == polls;
    OutcomeReached(Observations(polls), desired, 60);
  }

  /**
   * `timedWait` gives up with ErrLBTimedOut exactly when its first 61 observed statuses are
   * neither the desired one nor ERROR.
   */
  lemma TimedWaitTimesOutAfter61(kind: string, desired: string, polls: seq<Poll>)
    requires Fetchable(kind)
    ensures var obs := Observations(polls);
      WaitFrom(kind, desired, polls, 0, 0).result == TimedOut <==>
        61 <= |obs| && forall k :: 0 <= k < 61 ==> obs[k] != desired && obs[k] != ErrorState
  {
    WaitIsOutcome(kind, desired, polls, 0, 0);
    assert polls[0..] == polls;
    OutcomeTimedOut(Observations(polls), desired, 60);
  }

  /** An unknown kind is never fetched: it succeeds at once when the empty status is desired, and otherwise sleeps the whole timeout. */
  lemma UnknownKindWait(kind: string, desired: string, polls: seq<Poll>)
    requires !Fetchable(kind)
    ensures desired == "" ==> WaitFrom(kind, desired, polls, 0, 0) == Trace(Reached, 0, 0)
    ensures desired != "" ==> WaitFrom(kind, desired, polls, 0, 0) == Trace(TimedOut, 0, LBTimeout)
  {
    if desired != "" {
      UnknownKindFrom(kind, desired, polls, 0);
    }
  }

  lemma {:induction false} UnknownKindFrom(kind: string, desired: string, polls: seq<Poll>, n: nat)
    requires !Fetchable(kind) && desired != "" && n <= 60
    ensures WaitFrom(kind, desired, polls, 0, n * WaitInterval) == Trace(TimedOut, 0, LBTimeout)
    decreases 60 - n
  {
    if n < 60 {
      assert n * WaitInterval + WaitInterval == (n + 1) * WaitInterval;
      UnknownKindFrom(kind, desired, polls, n + 1);
    }
  }

  // ---------------------------------------------------------------------------
  // timedWaitForAll
  // ---------------------------------------------------------------------------

  /** The answer to one listing of a pool's members: their statuses, or the listing's error. */
  datatype Listing = ListFailed(err: Error) | Listed(statuses: seq<string>)

  const InitialRetries: nat := 18

  /** How one listing of the members is judged: any ERROR fails, any other non-ACTIVE status retries. */
  datatype Round = AnyError | NotYet | AllActive

  function Judge(statuses: seq<string>): (r: Round)
    ensures r == AnyError <==> exists k :: 0 <= k < |statuses| && statuses[k] == ErrorState
    ensures r == AllActive <==> forall k :: 0 <= k < |statuses| ==> statuses[k] == Active
  {
    if exists k :: 0 <= k < |statuses| && statuses[k] == ErrorState then AnyError
    else if forall k :: 0 <= k < |statuses| ==> statuses[k] == Active then AllActive
    else NotYet
  }

  /**
   * `timedWaitForAll` after `count` retries with the given retry limit. Each listing resets
   * the limit to the number of members it returned.
   */
  function WaitAllFrom(rounds: seq<Listing>, count: nat, maxRetries: nat): (r: Option<Error>)
    requires count <= |rounds|
    decreases |rounds| - count
  {
    if count >= maxRetries then Some(ErrLBTimedOut)
    else if count == |rounds| then Some(NoMoreAnswers)
    else match rounds[count]
      case ListFailed(e) => Some(e)
      case Listed(statuses) =>
        match Judge(statuses)
        case AnyError => Some(ErrLBErrorStatus)
        case AllActive => None
        case NotYet => WaitAllFrom(rounds, count + 1, |statuses|)
  }

  /**
   * `timedWaitForAll`: list the pool's members until all are ACTIVE, one is in ERROR, or the
   * retry limit is reached. `None` is Go's nil; `NoMoreAnswers` means the listings given ran out.
   */
  method TimedWaitForAll(rounds: seq<Listing>) returns (r: Option<Error>)
    ensures r == WaitAllFrom(rounds, 0, InitialRetries)
  {
    var maxRetries: nat := InitialRetries;
    var count := 0;
    var retry := false;
    while true
      invariant count <= |rounds| && !retry
      invariant WaitAllFrom(rounds, count, maxRetries) == WaitAllFrom(rounds, 0, InitialRetries)
      decreases |rounds| - count
    {
      if count >= maxRetries {
        return Some(ErrLBTimedOut);
      }
      if count == |rounds| {
        return Some(NoMoreAnswers);
      }
      var listing := rounds[count];
      if listing.ListFailed? {
        return Some(listing.err);
      }
      var statuses := listing.statuses;
      maxRetries := |statuses|;
      var i := 0;
      while i < |statuses|
        invariant i <= |statuses|
        invariant forall k :: 0 <= k < i ==> statuses[k] != ErrorState
        invariant retry <==> exists k :: 0 <= k < i && statuses[k] != Active
      {
        if statuses[i] != Active {
          if statuses[i] == ErrorState {
            return Some(ErrLBErrorStatus);
          }
          retry := true;
        }
        i := i + 1;
      }
      if !retry {
        return None;
      }
      count := count + 1;
      retry := false;
    }
  }

  /** Every member ACTIVE at the first listing ends the wait successfully. */
  lemma FirstListingAllActive(statuses: seq<string>, rest: seq<Listing>)
    requires forall k :: 0 <= k < |statuses| ==> statuses[k] == Active
    ensures WaitAllFrom([Listed(statuses)] + rest, 0, InitialRetries) == None
  {
  }

  /**
   * The retry limit after a listing is its member count: a pool whose single member is
   * still being created is listed once and the wait times out, even if the member is ACTIVE
   * at the next listing.
   */
  lemma SingleMemberListedOnce(status: string)
    requires status != Active && status != ErrorState
    ensures WaitAllFrom([Listed([status]), Listed([Active])], 0, InitialRetries) == Some(ErrLBTimedOut)
  {
    assert Judge([status]) == NotYet by {
      assert [status][0] == status;
    }
  }

  /**
   * The limit intended by the initial value: 18 retries, whatever the member count. It is
   * the corrected counterpart of `WaitAllFrom`; no other operation of the model waits on
   * pool members, so nothing else calls either definition.
   */
  function WaitAllBounded(rounds: seq<Listing>, count: nat): (r: Option<Error>)
    requires count <= |rounds|
    decreases |rounds| - count
  {
    if count >= InitialRetries then Some(ErrLBTimedOut)
    else if count == |rounds| then Some(NoMoreAnswers)
    else match rounds[count]
      case ListFailed(e) => Some(e)
      case Listed(statuses) =>
        match Judge(statuses)
        case AnyError => Some(ErrLBErrorStatus)
        case AllActive => None
        case NotYet => WaitAllBounded(rounds, count + 1)
  }

  /**
   * With a fixed limit of 18 retries, a wait whose listings all succeed and show no ERROR
   * succeeds as soon as some listing among the first 18 shows every member ACTIVE.
   */
  lemma {:induction false} WaitAllBoundedSucceeds(rounds: seq<Listing>, count: nat, j: nat)
    requires count <= j < |rounds| && j < InitialRetries
    requires forall k :: count <= k <= j ==> rounds[k].Listed? && Judge(rounds[k].statuses) != AnyError
    requires rounds[j].Listed? && Judge(rounds[j].statuses) == AllActive
    ensures WaitAllBounded(rounds, count) == None
    decreases j - count
  {
    if count < j && Judge(rounds[count].statuses) == NotYet {
      WaitAllBoundedSucceeds(rounds, count + 1, j);
    }
  }

  /** Under the fixed limit, the single-member pool of `SingleMemberListedOnce` is found ACTIVE. */
  lemma SingleMemberBoundedSucceeds(status: string)
    requires status != Active && status != ErrorState
    ensures WaitAllBounded([Listed([status]), Listed([Active])], 0) == None
  {
    var rounds := [Listed([status]), Listed([Active])];
    assert Judge([status]) == NotYet by {
      assert [status][0] == status;
    }
    WaitAllBoundedSucceeds(rounds, 0, 1);
  }
}
