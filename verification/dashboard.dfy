/**
 The figures the admin dashboard derives from the coupon list and the claim history: the active
 count and system status, the history search, the pie-chart partition, claims in the last 24
 hours and the number of distinct addresses. The front end's `status: 'active'` is taken to be
 the stored `isActive` flag.
 */
module Dashboard {
  import opened Common
  import opened Seqs
  import opened Text
  import opened CouponStore
  import Allocator

  /** One row of the claim history as the dashboard holds it. */
  datatype HistoryEntry = HistoryEntry(id: nat, ip: string, couponCode: string, device: string, timestamp: int)

  predicate IsActive(c: Coupon)
  {
    c.isActive
  }

  /** `activeCoupons`: the coupons whose status is active, never more than the whole list, and
      all of it exactly when every coupon is active; `ActiveCountSnoc` counts them one by one. */
  function ActiveCount(pool: Pool): (r: nat)
    ensures r <= |pool|
    ensures r == |pool| <==> forall i :: 0 <= i < |pool| ==> pool[i].isActive
  {
    CountAllIff(pool, IsActive);
    Count(pool, IsActive)
  }

  /** Counted coupon by coupon: an empty list has none active, and one more coupon adds one
      exactly when it is active. */
  lemma ActiveCountSnoc(pool: Pool, c: Coupon)
    ensures ActiveCount([]) == 0
    ensures ActiveCount(pool + [c]) == ActiveCount(pool) + (if c.isActive then 1 else 0)
  {
    CountSnoc(pool, c, IsActive);
  }

  datatype SystemStatus = Critical | Warning | Healthy

  /** `systemStatus`: critical with no active coupon, a warning below three, healthy otherwise. */
  function StatusOf(pool: Pool): (r: SystemStatus)
    ensures r == Critical <==> ActiveCount(pool) == 0
    ensures r == Warning <==> 1 <= ActiveCount(pool) <= 2
    ensures r == Healthy <==> ActiveCount(pool) >= 3
  {
    var active := ActiveCount(pool);
    if active == 0 then Critical else if active < 3 then Warning else Healthy
  }

  /** A critical status is never a false alarm: no coupon is active, so a claim that names its
      claimant fails with "No coupons left" and changes nothing. */
  lemma CriticalMeansNoStock(pool: Pool, ip: string, now: int)
    requires StatusOf(pool) == Critical
    ensures Allocator.NoneAvailable(pool)
    ensures Allocator.Claim(pool, Some(ip), now) == Allocator.ClaimStep(Allocator.NoCouponsLeft, pool)
  {
    var inactive := (c: Coupon) => !c.isActive;
    CountComplement(pool, IsActive, inactive);
    CountAllIff(pool, inactive);
    assert forall i :: 0 <= i < |pool| ==> !pool[i].isActive;
  }

  /** With at least one active coupon that is still unclaimed, the status is not critical. */
  lemma StockMeansNotCritical(pool: Pool)
    requires !Allocator.NoneAvailable(pool)
    ensures StatusOf(pool) != Critical
  {
    var i :| 0 <= i < |pool| && Allocator.Available(pool[i]);
    CountMonotone(pool, Allocator.Available, IsActive);
    assert Allocator.AvailableCount(pool) > 0 by {
      assert pool[i] in Filter(pool, Allocator.Available);
    }
  }

  /** Whether a history row matches the search term: the address contains the term as typed, or
      the coupon code contains the term upper-cased. */
  predicate Matches(e: HistoryEntry, term: string)
  {
    Contains(e.ip, term) || Contains(e.couponCode, ToUpper(term))
  }

  /**
   `filteredHistory`: an empty term shows the whole history; otherwise exactly the rows that
   match, in their original order.
   */
  function FilteredHistory(history: seq<HistoryEntry>, term: string): (r: seq<HistoryEntry>)
    ensures term == "" ==> r == history
    ensures IsSubsequence(r, history)
    ensures forall i :: 0 <= i < |r| ==> Matches(r[i], term)
    ensures forall i :: 0 <= i < |history| ==> (history[i] in r <==> Matches(history[i], term))
    ensures |r| == Count(history, (e: HistoryEntry) => Matches(e, term))
  {
    var keep := (e: HistoryEntry) => Matches(e, term);
    FilterIsSubsequence(history, keep);
    if term == "" then
      forall i | 0 <= i < |history|
        ensures keep(history[i])
      {
        ContainsEmpty(history[i].ip);
      }
      FilterAll(history, keep);
      assert Count(history, keep) == |history|;
      history
    else
      var r := Filter(history, keep);
      assert forall i :: 0 <= i < |r| ==> Matches(r[i], term) by {
        forall i | 0 <= i < |r| ensures Matches(r[i], term) { assert keep(r[i]); }
      }
      r
  }

  /** The empty-term shortcut agrees with filtering: the empty string matches every row. */
  lemma EmptyTermMatchesAll(history: seq<HistoryEntry>)
    ensures Filter(history, (e: HistoryEntry) => Matches(e, "")) == history
  {
    var keep := (e: HistoryEntry) => Matches(e, "");
    forall i | 0 <= i < |history|
      ensures keep(history[i])
    {
      ContainsEmpty(history[i].ip);
    }
    FilterAll(history, keep);
  }

  /** A coupon counts as claimed when `claimedBy` holds a non-empty string. */
  predicate ClaimedFlag(c: Coupon)
  {
    c.claimedBy.Some? && c.claimedBy.value != ""
  }

  /** The three slices of the pie chart. */
  datatype Chart = Chart(available: int, claimed: nat, inactive: nat)

  /**
   `chartData`: claimed counts every coupon with a claimant, inactive ones included; inactive is
   the rest of the list after the active coupons; available is active minus claimed. The three
   slices always add up to the whole list.
   */
  function ChartOf(pool: Pool): (r: Chart)
    ensures r.claimed == Count(pool, ClaimedFlag)
    ensures r.inactive == Count(pool, (c: Coupon) => !c.isActive)
    ensures r.available + r.claimed + r.inactive == |pool|
  {
    var active := ActiveCount(pool);
    CountComplement(pool, IsActive, (c: Coupon) => !c.isActive);
    Chart(active - Count(pool, ClaimedFlag), Count(pool, ClaimedFlag), |pool| - active)
  }

  /** "Available" counts active unclaimed coupons minus inactive claimed ones. */
  lemma ChartAvailableSplit(pool: Pool)
    ensures ChartOf(pool).available
         == Count(pool, (c: Coupon) => c.isActive && !ClaimedFlag(c))
          - Count(pool, (c: Coupon) => !c.isActive && ClaimedFlag(c))
  {
    CountSplit(pool, IsActive, (c: Coupon) => c.isActive && ClaimedFlag(c),
               (c: Coupon) => c.isActive && !ClaimedFlag(c), ClaimedFlag);
    CountSplit(pool, ClaimedFlag, (c: Coupon) => ClaimedFlag(c) && c.isActive,
               (c: Coupon) => ClaimedFlag(c) && !c.isActive, IsActive);
    CountSame(pool, (c: Coupon) => c.isActive && ClaimedFlag(c), (c: Coupon) => ClaimedFlag(c) && c.isActive);
    CountSame(pool, (c: Coupon) => !c.isActive && ClaimedFlag(c), (c: Coupon) => ClaimedFlag(c) && !c.isActive);
  }

  /** When no inactive coupon carries a claimant and every claimant is non-empty, "Available"
      is exactly the stock the claim route can still hand out. */
  lemma ChartAvailableIsStock(pool: Pool)
    requires forall i :: 0 <= i < |pool| && pool[i].claimedBy.Some? ==> pool[i].claimedBy.value != ""
    requires forall i :: 0 <= i < |pool| && ClaimedFlag(pool[i]) ==> pool[i].isActive
    ensures ChartOf(pool).available == Allocator.AvailableCount(pool)
  {
    ChartAvailableSplit(pool);
    CountNone(pool, (c: Coupon) => !c.isActive && ClaimedFlag(c));
    CountSame(pool, (c: Coupon) => c.isActive && !ClaimedFlag(c), Allocator.Available);
  }

  /** "Available" goes negative when an inactive coupon has been claimed. */
  lemma ChartAvailableCanBeNegative()
    ensures ChartOf([Coupon(0, "SAVE10", false, Some("10.0.0.1"), Some(0))]).available == -1
  {
    var pool := [Coupon(0, "SAVE10", false, Some("10.0.0.1"), Some(0))];
    assert Count(pool, IsActive) == 0 by {
      assert Filter(pool[1..], IsActive) == [];
    }
    assert Count(pool, ClaimedFlag) == 1 by {
      assert Filter(pool[1..], ClaimedFlag) == [];
    }
  }

  /** Whether a history row falls in the 24 hours up to `now`, the lower bound included. */
  predicate WithinDay(e: HistoryEntry, now: int)
  {
    e.timestamp >= now - DayMs
  }

  /** `claimsToday`: the rows no older than 24 hours, never more than the whole history. */
  function ClaimsToday(history: seq<HistoryEntry>, now: int): (r: nat)
    ensures r <= |history|
    ensures r == |history| <==> forall i :: 0 <= i < |history| ==> history[i].timestamp >= now - DayMs
  {
    var recent := (e: HistoryEntry) => WithinDay(e, now);
    CountAllIff(history, recent);
    Count(history, recent)
  }

  /** Appending a row adds one to the count exactly when the row is at most 24 hours old; a row
      exactly 24 hours old still counts. */
  lemma ClaimsTodaySnoc(history: seq<HistoryEntry>, e: HistoryEntry, now: int)
    ensures ClaimsToday(history + [e], now)
         == ClaimsToday(history, now) + (if e.timestamp >= now - DayMs then 1 else 0)
  {
    CountSnoc(history, e, (x: HistoryEntry) => WithinDay(x, now));
  }

  /** Moving `now` forward never raises the count. */
  lemma ClaimsTodayAntitone(history: seq<HistoryEntry>, now1: int, now2: int)
    requires now1 <= now2
    ensures ClaimsToday(history, now2) <= ClaimsToday(history, now1)
  {
    CountMonotone(history, (e: HistoryEntry) => WithinDay(e, now2), (e: HistoryEntry) => WithinDay(e, now1));
  }

  /** The set of addresses in the history. */
  function IpSet(history: seq<HistoryEntry>): (r: set<string>)
    ensures |r| <= |history|
    ensures forall i :: 0 <= i < |history| ==> history[i].ip in r
  {
    if history == [] then {}
    else
      var rest := IpSet(history[1..]);
      assert forall i :: 1 <= i < |history| ==> history[i].ip in rest by {
        forall i | 1 <= i < |history|
          ensures history[i].ip in rest
        {
          assert history[i] == history[1..][i - 1];
        }
      }
      {history[0].ip} + rest
  }

  /** Every address in the set comes from some row of the history. */
  lemma {:induction false} IpSetFromHistory(history: seq<HistoryEntry>, ip: string)
    requires ip in IpSet(history)
    ensures exists i :: 0 <= i < |history| && history[i].ip == ip
  {
    if history[0].ip != ip {
      IpSetFromHistory(history[1..], ip);
      var j :| 0 <= j < |history[1..]| && history[1..][j].ip == ip;
      assert history[j + 1].ip == ip;
    }
  }

  /** `uniqueIPs`: how many different addresses appear, at most the history's length and zero
      exactly for an empty history. */
  function UniqueIPs(history: seq<HistoryEntry>): (r: nat)
    ensures r == |set i | 0 <= i < |history| :: history[i].ip|
    ensures r <= |history|
    ensures r == 0 <==> history == []
  {
    var ips := IpSet(history);
    assert history != [] ==> history[0].ip in ips;
    assert ips == set i | 0 <= i < |history| :: history[i].ip by {
      forall ip | ip in ips
        ensures ip in set i | 0 <= i < |history| :: history[i].ip
      {
        IpSetFromHistory(history, ip);
      }
    }
    |ips|
  }

  /** Rows from pairwise different addresses are counted one each. */
  lemma {:induction false} UniqueIPsOfDistinct(history: seq<HistoryEntry>)
    requires forall i, j :: 0 <= i < j < |history| ==> history[i].ip != history[j].ip
    ensures UniqueIPs(history) == |history|
  {
    if history != [] {
      UniqueIPsOfDistinct(history[1..]);
      if history[0].ip in IpSet(history[1..]) {
        IpSetFromHistory(history[1..], history[0].ip);
        assert false;
      }
    }
  }

  /** Any number of rows from one address count once. */
  lemma UniqueIPsOfOneAddress(history: seq<HistoryEntry>, ip: string)
    requires history != []
    requires forall i :: 0 <= i < |history| ==> history[i].ip == ip
    ensures UniqueIPs(history) == 1
  {
    var ips := IpSet(history);
    assert ips == {ip} by {
      forall x | x in ips
        ensures x == ip
      {
        IpSetFromHistory(history, x);
      }
      assert history[0].ip in ips;
    }
  }
}
