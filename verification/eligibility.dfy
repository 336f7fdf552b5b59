/**
 The claimant's cooldown, as the browser client keeps it: the time of the last claim and the
 code claimed are read from local storage, and a new claim is allowed once 24 hours have passed.
 The server enforces no cooldown; this state is advisory. Times are milliseconds.
 */
module Eligibility {
  import opened Common

  /** The two local-storage entries. */
  datatype Storage = Storage(lastClaimTime: Option<int>, claimedCode: Option<string>)

  /** The time left until the next claim, shown as `${hours}h ${minutes}m`. */
  datatype Remaining = Remaining(hours: nat, minutes: nat)

  /** The client's claim-related state and its local storage. */
  datatype ClientState = ClientState(
    storage: Storage,
    hasClaimedCoupon: bool,
    claimedCoupon: Option<string>,
    canClaim: bool,
    timeUntilNextClaim: Option<Remaining>,
    errorMessage: Option<string>)

  /** A stored code counts only when it is a non-empty string. */
  predicate StoredCode(s: Storage)
  {
    s.claimedCode.Some? && s.claimedCode.value != ""
  }

  /** The cooldown that started at `last` has not yet elapsed at `now`. */
  predicate CoolingDown(last: Option<int>, now: int)
  {
    last.Some? && now < last.value + DayMs
  }

  /**
   Whole hours and the whole minutes left over, both rounded down: the largest hour-and-minute
   amount that does not exceed the remaining time, with fewer than 60 minutes.
   */
  function Breakdown(remaining: nat): (r: Remaining)
    ensures r.minutes < 60
    ensures r.hours * HourMs + r.minutes * MinuteMs <= remaining
    ensures remaining < r.hours * HourMs + (r.minutes + 1) * MinuteMs
  {
    var minutesPart := remaining % HourMs;
    Remaining(remaining / HourMs, minutesPart / MinuteMs)
  }

  /**
   `checkClaimEligibility`. A non-empty stored code marks the claimant as holding a coupon (an
   absent or empty one clears the flag but leaves the displayed code as it was). With no stored
   claim time the claimant may claim; with one, claiming is blocked strictly before the claim time
   plus 24 hours, and the time left is reported as hours and minutes.
   */
  function CheckEligibility(st: ClientState, now: int): (r: ClientState)
    ensures r.storage == st.storage && r.errorMessage == st.errorMessage
    ensures r.hasClaimedCoupon <==> StoredCode(st.storage)
    ensures StoredCode(st.storage) ==> r.claimedCoupon == st.storage.claimedCode
    ensures !StoredCode(st.storage) ==> r.claimedCoupon == st.claimedCoupon
    ensures r.canClaim <==> !CoolingDown(st.storage.lastClaimTime, now)
    ensures r.canClaim <==> r.timeUntilNextClaim.None?
    ensures !r.canClaim ==>
      var left := st.storage.lastClaimTime.value + DayMs - now;
      var t := r.timeUntilNextClaim.value;
      && left > 0
      && t.minutes < 60
      && t.hours * HourMs + t.minutes * MinuteMs <= left < t.hours * HourMs + (t.minutes + 1) * MinuteMs
  {
    var held := StoredCode(st.storage);
    var claimed := if held then st.storage.claimedCode else st.claimedCoupon;
    match st.storage.lastClaimTime
    case None => st.(hasClaimedCoupon := held, claimedCoupon := claimed, canClaim := true, timeUntilNextClaim := None)
    case Some(last) =>
      var next := last + DayMs;
      if now < next then
        st.(hasClaimedCoupon := held, claimedCoupon := claimed, canClaim := false,
            timeUntilNextClaim := Some(Breakdown(next - now)))
      else
        st.(hasClaimedCoupon := held, claimedCoupon := claimed, canClaim := true, timeUntilNextClaim := None)
  }

  /**
   The 24-hour boundary is exclusive: one millisecond before it the claimant is blocked with
   0h 0m left, and at exactly the claim time plus 24 hours the claimant may claim again.
   */
  lemma CooldownBoundary(st: ClientState, last: int)
    requires st.storage.lastClaimTime == Some(last)
    ensures !CheckEligibility(st, last + DayMs - 1).canClaim
    ensures CheckEligibility(st, last + DayMs - 1).timeUntilNextClaim == Some(Remaining(0, 0))
    ensures CheckEligibility(st, last + DayMs).canClaim
  {
    assert Breakdown(1) == Remaining(0, 0);
  }

  /**
   Within a cooldown that started no later than now, the time left is at most 24h 0m, and it is
   24h only at the very moment of the claim.
   */
  lemma RemainingAtMostOneDay(st: ClientState, now: int)
    requires st.storage.lastClaimTime.Some? && st.storage.lastClaimTime.value <= now
    requires !CheckEligibility(st, now).canClaim
    ensures CheckEligibility(st, now).timeUntilNextClaim.value.hours <= 24
    ensures CheckEligibility(st, now).timeUntilNextClaim.value.hours == 24
        ==> CheckEligibility(st, now).timeUntilNextClaim.value.minutes == 0
            && now == st.storage.lastClaimTime.value
  {
    var left := st.storage.lastClaimTime.value + DayMs - now;
    var t := CheckEligibility(st, now).timeUntilNextClaim.value;
    assert 0 < left <= DayMs;
    if t.hours == 24 {
      assert 24 * HourMs + t.minutes * MinuteMs <= left;
    }
  }

  /** What the claim request answered: the code handed out, or the error text. */
  datatype ClaimResponse = Served(code: string) | Refused(message: string)

  /**
   `claimCoupon`'s effect once the request has answered. On success the claimant holds the
   returned code, the claim time and code are stored, claiming is blocked and 24h 0m are left.
   On failure only the error message changes.
   */
  function ApplyClaimResponse(st: ClientState, resp: ClaimResponse, now: int): (r: ClientState)
    ensures resp.Served? ==>
      && r.hasClaimedCoupon && r.claimedCoupon == Some(resp.code)
      && r.storage == Storage(Some(now), Some(resp.code))
      && !r.canClaim && r.timeUntilNextClaim == Some(Remaining(24, 0))
      && r.errorMessage.None?
    ensures resp.Refused? ==> r == st.(errorMessage := Some(resp.message))
  {
    match resp
    case Served(code) =>
      ClientState(Storage(Some(now), Some(code)), true, Some(code), false,
                  Some(Remaining(DayMs / HourMs, 0)), None)
    case Refused(message) => st.(errorMessage := Some(message))
  }

  /**
   A successful claim and a later eligibility check agree: right after the claim the check
   changes nothing (24h 0m left); at any later time the claimant still holds the code, and may
   claim again exactly when 24 hours have passed.
   */
  lemma ClaimThenCheck(st: ClientState, code: string, now: int, later: int)
    requires code != "" && now <= later
    ensures var s1 := ApplyClaimResponse(st, Served(code), now);
            && CheckEligibility(s1, now) == s1
            && CheckEligibility(s1, later).hasClaimedCoupon
            && CheckEligibility(s1, later).claimedCoupon == Some(code)
            && (CheckEligibility(s1, later).canClaim <==> later >= now + DayMs)
  {
    var s1 := ApplyClaimResponse(st, Served(code), now);
    assert Breakdown(DayMs) == Remaining(24, 0);
  }
}
