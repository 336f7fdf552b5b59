/**
 The public claim endpoint: one claim hands out the active, unclaimed coupon with the smallest
 identity and stamps it with the claimant and the time, as a single atomic transition.
 The route never writes a claim record and never checks a cooldown; neither does this model.
 */
module Allocator {
  import opened Common
  import opened Seqs
  import opened CouponStore

  /** A coupon the claim query `{ isActive: true, claimedBy: null }` matches. */
  predicate Available(c: Coupon)
  {
    c.isActive && c.claimedBy.None?
  }

  /** The number of coupons a claim could still hand out. */
  function AvailableCount(pool: Pool): nat
  {
    Count(pool, Available)
  }

  /** The codes a claim could still hand out, in pool order. */
  function AvailableCodes(pool: Pool): seq<string>
  {
    Codes(Filter(pool, Available))
  }

  predicate NoneAvailable(pool: Pool)
  {
    forall j :: 0 <= j < |pool| ==> !Available(pool[j])
  }

  /** Index `i` holds a matching coupon whose identity is the smallest among all matching ones. */
  predicate IsSelected(pool: Pool, i: int)
  {
    && 0 <= i < |pool|
    && Available(pool[i])
    && forall j :: 0 <= j < |pool| && Available(pool[j]) ==> pool[i].id <= pool[j].id
  }

  /** The query `findOne({ isActive: true, claimedBy: null }).sort({ _id: 1 })`. */
  function SelectIndex(pool: Pool): (r: Option<nat>)
    ensures r.None? <==> NoneAvailable(pool)
    ensures r.Some? ==> IsSelected(pool, r.value)
    decreases |pool|
  {
    if |pool| == 0 then None
    else
      var init := pool[..|pool| - 1];
      var last := |pool| - 1;
      var best := SelectIndex(init);
      assert forall j :: 0 <= j < last ==> pool[j] == init[j];
      if Available(pool[last]) && (best.None? || pool[last].id < pool[best.value].id) then Some(last)
      else best
  }

  /** In a pool kept in identity order the selected coupon is the first matching one. */
  lemma SelectedIsFirst(pool: Pool, i: int)
    requires IdsAscending(pool)
    requires IsSelected(pool, i)
    ensures forall j :: 0 <= j < i ==> !Available(pool[j])
  {
  }

  /** `after` is `before` with coupon `i` stamped as claimed by `ip` at `now`, and nothing else changed. */
  predicate StampedOnly(before: Pool, after: Pool, i: int, ip: Option<string>, now: int)
  {
    && 0 <= i < |before|
    && |after| == |before|
    && after[i] == before[i].(claimedBy := ip, claimedAt := Some(now))
    && forall j :: 0 <= j < |before| && j != i ==> after[j] == before[j]
  }

  datatype ClaimOutcome =
    | Claimed(code: string)
    | NoCouponsLeft
    | MissingClaimant

  /** What one claim answers and the pool it leaves behind. */
  datatype ClaimStep = ClaimStep(outcome: ClaimOutcome, pool: Pool)

  /**
   The claim route as written. The claimant comes from the request body's `ip` field; when that
   field is absent, assigning `undefined` to `claimedBy` unsets it, so the coupon keeps matching
   `claimedBy: null` although its code has been handed out and `claimedAt` is set.
   */
  function ClaimAsWritten(pool: Pool, ip: Option<string>, now: int): (r: ClaimStep)
    ensures r.outcome.NoCouponsLeft? <==> NoneAvailable(pool)
    ensures !r.outcome.MissingClaimant?
    ensures r.outcome.NoCouponsLeft? ==> r.pool == pool
    ensures r.outcome.Claimed? ==>
      exists i :: IsSelected(pool, i) && r.outcome.code == pool[i].code && StampedOnly(pool, r.pool, i, ip, now)
  {
    match SelectIndex(pool)
    case None => ClaimStep(NoCouponsLeft, pool)
    case Some(i) =>
      ClaimStep(Claimed(pool[i].code), pool[i := pool[i].(claimedBy := ip, claimedAt := Some(now))])
  }

  /**
   The claim with its claimant made mandatory: a request that names no claimant is refused and
   leaves the pool as it was, so every code handed out is consumed. Otherwise the route's
   behaviour: no matching coupon fails with "No coupons left" and changes nothing; else the
   matching coupon with the smallest identity, and only it, is stamped and its code returned.
   */
  function Claim(pool: Pool, ip: Option<string>, now: int): (r: ClaimStep)
    ensures r.outcome.MissingClaimant? <==> ip.None?
    ensures r.outcome.NoCouponsLeft? <==> ip.Some? && NoneAvailable(pool)
    ensures !r.outcome.Claimed? ==> r.pool == pool
    ensures r.outcome.Claimed? ==>
      exists i :: IsSelected(pool, i) && r.outcome.code == pool[i].code && StampedOnly(pool, r.pool, i, ip, now)
    ensures r.outcome.Claimed? ==> ip.Some? && AvailableCount(r.pool) == AvailableCount(pool) - 1
  {
    if ip.None? then ClaimStep(MissingClaimant, pool)
    else
      var step := ClaimAsWritten(pool, ip, now);
      if step.outcome.Claimed? then
        var i := SelectIndex(pool).value;
        CountUpdate(pool, i, step.pool[i], Available);
        assert step.pool == pool[i := step.pool[i]];
        step
      else step
  }

  /** The corrected claim and the route as written agree on every request that names a claimant. */
  lemma ClaimAgreesWhenNamed(pool: Pool, ip: string, now: int)
    ensures Claim(pool, Some(ip), now) == ClaimAsWritten(pool, Some(ip), now)
  {
  }

  /**
   The route as written hands the same code out twice: from any pool with stock, two claims whose
   request names no claimant both succeed with the same code, the stock does not shrink, and the
   coupon is left with a claim time but no claimant.
   */
  lemma AsWrittenRepeatsCodeWithoutClaimant(pool: Pool, now1: int, now2: int)
    requires !NoneAvailable(pool)
    ensures var s1 := ClaimAsWritten(pool, None, now1);
            var s2 := ClaimAsWritten(s1.pool, None, now2);
            && s1.outcome.Claimed? && s2.outcome == s1.outcome
            && AvailableCount(s1.pool) == AvailableCount(pool)
            && exists j :: 0 <= j < |s1.pool| && !StampConsistent(s1.pool[j])
  {
    var i := SelectIndex(pool).value;
    var s1 := ClaimAsWritten(pool, None, now1);
    var c := pool[i].(claimedAt := Some(now1));
    assert s1.pool == pool[i := c];
    SelectIndexSeesOnlyMatches(pool, s1.pool);
    CountUpdate(pool, i, c, Available);
    assert !StampConsistent(s1.pool[i]);
  }

  /** The selection looks only at which coupons match and at their identities. */
  lemma {:induction false} SelectIndexSeesOnlyMatches(p: Pool, q: Pool)
    requires |p| == |q|
    requires forall j :: 0 <= j < |p| ==> Available(p[j]) == Available(q[j]) && p[j].id == q[j].id
    ensures SelectIndex(p) == SelectIndex(q)
    decreases |p|
  {
    if |p| > 0 {
      SelectIndexSeesOnlyMatches(p[..|p| - 1], q[..|q| - 1]);
    }
  }

  /** Claiming with a named claimant keeps every pool invariant: identities and codes are untouched
      and the coupon gets its claimant and its claim time together. */
  lemma ClaimKeepsWellFormed(pool: Pool, ip: Option<string>, now: int)
    requires WellFormed(pool)
    ensures WellFormed(Claim(pool, ip, now).pool)
  {
    var r := Claim(pool, ip, now);
    if ip.Some? && !NoneAvailable(pool) {
      var i := SelectIndex(pool).value;
      var c := pool[i].(claimedBy := ip, claimedAt := Some(now));
      assert r.pool == pool[i := c];
      StampKeepsWellFormed(pool, i, c);
    }
  }

  /** Replacing a coupon by one with the same identity and code and a consistent stamp keeps the
      pool well formed. */
  lemma StampKeepsWellFormed(pool: Pool, i: nat, c: Coupon)
    requires WellFormed(pool)
    requires i < |pool| && c.id == pool[i].id && c.code == pool[i].code && StampConsistent(c)
    ensures WellFormed(pool[i := c])
  {
    var p := pool[i := c];
    assert forall j :: 0 <= j < |pool| ==> p[j].id == pool[j].id && p[j].code == pool[j].code;
    forall j, k | 0 <= j < k < |p|
      ensures p[j].id < p[k].id && p[j].code != p[k].code
    {
      assert pool[j].id < pool[k].id && pool[j].code != pool[k].code;
    }
    forall j | 0 <= j < |p|
      ensures ValidCode(p[j].code) && StampConsistent(p[j])
    {
      if j != i {
        assert p[j] == pool[j];
      }
    }
  }

  /** One claim request: the claimant named in the body (if any) and the server's clock. */
  datatype ClaimRequest = ClaimRequest(ip: Option<string>, now: int)

  predicate Named(req: ClaimRequest)
  {
    req.ip.Some?
  }

  /** The codes handed out by a sequence of claims, in order, and the pool they leave. */
  datatype Run = Run(codes: seq<string>, pool: Pool)

  /** Serving claim requests one after another, each as one atomic `Claim`. */
  function RunClaims(pool: Pool, reqs: seq<ClaimRequest>): (r: Run)
    ensures |r.pool| == |pool|
    decreases |reqs|
  {
    if |reqs| == 0 then Run([], pool)
    else
      var step := Claim(pool, reqs[0].ip, reqs[0].now);
      var rest := RunClaims(step.pool, reqs[1..]);
      Run((if step.outcome.Claimed? then [step.outcome.code] else []) + rest.codes, rest.pool)
  }

  /** The same requests served one after another by the route as written. */
  function RunAsWritten(pool: Pool, reqs: seq<ClaimRequest>): (r: Run)
    ensures |r.pool| == |pool|
    decreases |reqs|
  {
    if |reqs| == 0 then Run([], pool)
    else
      var step := ClaimAsWritten(pool, reqs[0].ip, reqs[0].now);
      var rest := RunAsWritten(step.pool, reqs[1..]);
      Run((if step.outcome.Claimed? then [step.outcome.code] else []) + rest.codes, rest.pool)
  }

  /**
   On requests that all name their claimant the route as written and the corrected claim serve
   the same codes and leave the same pool, so every property proved of `RunClaims` holds of the
   route as written on such runs.
   */
  lemma {:induction false} RunAgreesWhenNamed(pool: Pool, reqs: seq<ClaimRequest>)
    requires forall k :: 0 <= k < |reqs| ==> Named(reqs[k])
    ensures RunAsWritten(pool, reqs) == RunClaims(pool, reqs)
    decreases |reqs|
  {
    if |reqs| > 0 {
      ClaimAgreesWhenNamed(pool, reqs[0].ip.value, reqs[0].now);
      var step := Claim(pool, reqs[0].ip, reqs[0].now);
      assert forall k :: 0 <= k < |reqs[1..]| ==> Named(reqs[1..][k]) by {
        forall k | 0 <= k < |reqs[1..]|
          ensures Named(reqs[1..][k])
        {
          assert reqs[1..][k] == reqs[k + 1];
        }
      }
      RunAgreesWhenNamed(step.pool, reqs[1..]);
    }
  }

  /**
   The route as written oversells: from one active, unclaimed coupon, two requests that name no
   claimant are both served, with the same code, although the stock was one.
   */
  lemma AsWrittenOversells(now1: int, now2: int)
    ensures var pool := [Coupon(0, "SAVE10", true, None, None)];
            var run := RunAsWritten(pool, [ClaimRequest(None, now1), ClaimRequest(None, now2)]);
            && AvailableCount(pool) == 1
            && run.codes == ["SAVE10", "SAVE10"]
  {
    var pool := [Coupon(0, "SAVE10", true, None, None)];
    var reqs := [ClaimRequest(None, now1), ClaimRequest(None, now2)];
    assert Available(pool[0]);
    assert AvailableCount(pool) == 1 by {
      assert Filter(pool[1..], Available) == [];
    }
    AsWrittenRepeatsCodeWithoutClaimant(pool, now1, now2);
    var s1 := ClaimAsWritten(pool, None, now1);
    var s2 := ClaimAsWritten(s1.pool, None, now2);
    assert s1.outcome == Claimed("SAVE10");
    assert reqs[1..] == [ClaimRequest(None, now2)];
    assert reqs[1..][1..] == [];
    assert RunAsWritten(s1.pool, reqs[1..]).codes == [s2.outcome.code];
  }

  /**
   Every successful claim uses up one unit of stock: the codes handed out plus the stock left
   equal the stock at the start, so successes never exceed the initial number of active,
   unclaimed coupons.
   */
  lemma {:induction false} StockConserved(pool: Pool, reqs: seq<ClaimRequest>)
    ensures |RunClaims(pool, reqs).codes| + AvailableCount(RunClaims(pool, reqs).pool) == AvailableCount(pool)
    ensures |RunClaims(pool, reqs).codes| <= AvailableCount(pool)
    decreases |reqs|
  {
    if |reqs| > 0 {
      var step := Claim(pool, reqs[0].ip, reqs[0].now);
      StockConserved(step.pool, reqs[1..]);
    }
  }

  /**
   Claims touch only coupons that were active and unclaimed at the start: an inactive coupon,
   or one already claimed, comes out of any sequence of claims exactly as it went in.
   */
  lemma {:induction false} OnlyMatchingCouponsChange(pool: Pool, reqs: seq<ClaimRequest>)
    ensures forall j :: 0 <= j < |pool| && !Available(pool[j]) ==> RunClaims(pool, reqs).pool[j] == pool[j]
    decreases |reqs|
  {
    if |reqs| > 0 {
      var step := Claim(pool, reqs[0].ip, reqs[0].now);
      if step.outcome.Claimed? {
        var i :| IsSelected(pool, i) && step.outcome.code == pool[i].code
          && StampedOnly(pool, step.pool, i, reqs[0].ip, reqs[0].now);
        assert !Available(step.pool[i]);
      }
      OnlyMatchingCouponsChange(step.pool, reqs[1..]);
    }
  }

  /** Dropping the head of a pool drops the head of its codes. */
  lemma CodesTail(s: Pool)
    requires |s| > 0
    ensures Codes(s[1..]) == Codes(s)[1..]
  {
  }

  /** In a pool kept in identity order a successful claim hands out the first code still
      available, and the codes still available afterwards are the rest. */
  lemma ClaimTakesHead(pool: Pool, ip: string, now: int)
    requires IdsAscending(pool)
    requires !NoneAvailable(pool)
    ensures |AvailableCodes(pool)| > 0
    ensures Claim(pool, Some(ip), now).outcome == Claimed(AvailableCodes(pool)[0])
    ensures AvailableCodes(Claim(pool, Some(ip), now).pool) == AvailableCodes(pool)[1..]
    ensures IdsAscending(Claim(pool, Some(ip), now).pool)
  {
    var i := SelectIndex(pool).value;
    var r := Claim(pool, Some(ip), now);
    SelectedIsFirst(pool, i);
    var c := pool[i].(claimedBy := Some(ip), claimedAt := Some(now));
    assert r.pool == pool[i := c];
    FilterUpdateFirst(pool, i, c, Available);
    CodesTail(Filter(pool, Available));
  }

  /** With nothing matching the claim query there are no codes left to hand out. */
  lemma NoStockNoCodes(pool: Pool)
    requires NoneAvailable(pool)
    ensures AvailableCodes(pool) == []
  {
    var f := Filter(pool, Available);
    if |f| > 0 {
      FilteredFromPool(pool, 0);
      assert false;
    }
    assert Codes(f) == [];
  }

  /**
   The pool drains in a fixed order: in a pool kept in identity order, the codes handed out by any
   sequence of claims are exactly the first k codes available at the start, where k is the number
   of requests that name a claimant, capped by the stock.
   */
  lemma {:induction false} DrainOrder(pool: Pool, reqs: seq<ClaimRequest>)
    requires IdsAscending(pool)
    ensures RunClaims(pool, reqs).codes == AvailableCodes(pool)[..Min(Count(reqs, Named), |AvailableCodes(pool)|)]
    decreases |reqs|
  {
    if |reqs| > 0 {
      var req := reqs[0];
      assert Count(reqs, Named) == (if Named(req) then 1 else 0) + Count(reqs[1..], Named);
      if req.ip.None? {
        DrainOrder(pool, reqs[1..]);
      } else if NoneAvailable(pool) {
        DrainOrder(pool, reqs[1..]);
        NoStockNoCodes(pool);
      } else {
        DrainStep(pool, reqs);
      }
    }
  }

  /** The inductive step of `DrainOrder` when the first request is served. */
  lemma {:induction false} DrainStep(pool: Pool, reqs: seq<ClaimRequest>)
    requires IdsAscending(pool)
    requires |reqs| > 0 && reqs[0].ip.Some? && !NoneAvailable(pool)
    requires Count(reqs, Named) == 1 + Count(reqs[1..], Named)
    ensures RunClaims(pool, reqs).codes == AvailableCodes(pool)[..Min(Count(reqs, Named), |AvailableCodes(pool)|)]
    decreases |reqs|, 0
  {
    var avail := AvailableCodes(pool);
    var step := Claim(pool, reqs[0].ip, reqs[0].now);
    ClaimTakesHead(pool, reqs[0].ip.value, reqs[0].now);
    DrainOrder(step.pool, reqs[1..]);
    var rest := RunClaims(step.pool, reqs[1..]);
    assert RunClaims(pool, reqs).codes == [avail[0]] + rest.codes;
    HeadThenPrefix(avail, rest.codes, Count(reqs[1..], Named));
  }

  /** The head of `s` followed by the first `n` codes of its tail is the first `n + 1` codes of `s`. */
  lemma HeadThenPrefix(s: seq<string>, t: seq<string>, n: nat)
    requires |s| > 0 && t == s[1..][..Min(n, |s| - 1)]
    ensures [s[0]] + t == s[..Min(n + 1, |s|)]
  {
    PrefixCons(s, Min(n, |s| - 1));
  }

  /** A head followed by a prefix of the tail is a prefix. */
  lemma PrefixCons(s: seq<string>, k: nat)
    requires 0 < |s| && k < |s|
    ensures [s[0]] + s[1..][..k] == s[..k + 1]
  {
  }

  /** Every coupon that survives the filter is a coupon of the pool. */
  lemma FilteredFromPool(pool: Pool, k: nat)
    requires k < |Filter(pool, Available)|
    ensures exists j :: 0 <= j < |pool| && pool[j] == Filter(pool, Available)[k]
  {
    assert Filter(pool, Available)[k] in pool;
  }

  /** The codes still available in a pool with unique codes are pairwise distinct. */
  lemma {:induction false} AvailableCodesDistinct(pool: Pool)
    requires CodesUnique(pool)
    ensures Distinct(AvailableCodes(pool))
    decreases |pool|
  {
    if |pool| > 0 {
      var tail := Filter(pool[1..], Available);
      TailCodesUnique(pool);
      AvailableCodesDistinct(pool[1..]);
      if Available(pool[0]) {
        assert Filter(pool, Available) == [pool[0]] + tail;
        HeadCodeNotInTail(pool);
        CodesCons(pool[0], tail);
        ConsDistinct(pool[0].code, Codes(tail));
      } else {
        assert Filter(pool, Available) == tail;
      }
    }
  }

  lemma TailCodesUnique(pool: Pool)
    requires |pool| > 0 && CodesUnique(pool)
    ensures CodesUnique(pool[1..])
  {
    forall i, j | 0 <= i < j < |pool[1..]|
      ensures pool[1..][i].code != pool[1..][j].code
    {
      assert pool[1..][i] == pool[i + 1] && pool[1..][j] == pool[j + 1];
    }
  }

  /** The head's code is not among the codes still available in the tail. */
  lemma HeadCodeNotInTail(pool: Pool)
    requires |pool| > 0 && CodesUnique(pool)
    ensures forall k :: 0 <= k < |Codes(Filter(pool[1..], Available))| ==>
      Codes(Filter(pool[1..], Available))[k] != pool[0].code
  {
    var tail := Filter(pool[1..], Available);
    forall k | 0 <= k < |tail|
      ensures tail[k].code != pool[0].code
    {
      FilteredFromPool(pool[1..], k);
      var j :| 0 <= j < |pool[1..]| && pool[1..][j] == tail[k];
      assert pool[j + 1] == tail[k];
    }
  }

  lemma CodesCons(c: Coupon, s: Pool)
    ensures Codes([c] + s) == [c.code] + Codes(s)
  {
    var r := [c] + s;
    assert forall i :: 0 < i < |r| ==> r[i] == s[i - 1];
  }

  /**
   No code is handed out twice: in a well-formed pool the codes returned by any sequence of
   claims are pairwise distinct, and each is the code of a coupon that was active and unclaimed
   at the start.
   */
  lemma DistinctCodes(pool: Pool, reqs: seq<ClaimRequest>)
    requires IdsAscending(pool) && CodesUnique(pool)
    ensures Distinct(RunClaims(pool, reqs).codes)
    ensures forall k :: 0 <= k < |RunClaims(pool, reqs).codes| ==> HadStock(pool, RunClaims(pool, reqs).codes[k])
  {
    var codes := RunClaims(pool, reqs).codes;
    var avail := AvailableCodes(pool);
    var n := Min(Count(reqs, Named), |avail|);
    DrainOrder(pool, reqs);
    assert codes == avail[..n];
    AvailableCodesDistinct(pool);
    PrefixDistinct(avail, n);
    forall k | 0 <= k < |codes|
      ensures HadStock(pool, codes[k])
    {
      AvailableCodeHadStock(pool, k);
      assert codes[k] == avail[k];
    }
  }

  lemma ConsDistinct(x: string, s: seq<string>)
    requires Distinct(s)
    requires forall k :: 0 <= k < |s| ==> s[k] != x
    ensures Distinct([x] + s)
  {
    var r := [x] + s;
    forall i, j | 0 <= i < j < |r|
      ensures r[i] != r[j]
    {
      assert r[j] == s[j - 1];
      if i > 0 {
        assert r[i] == s[i - 1];
      }
    }
  }

  lemma PrefixDistinct(s: seq<string>, n: nat)
    requires Distinct(s) && n <= |s|
    ensures Distinct(s[..n])
  {
    forall i, j | 0 <= i < j < n
      ensures s[..n][i] != s[..n][j]
    {
      assert s[..n][i] == s[i] && s[..n][j] == s[j];
    }
  }

  /** Some coupon of the pool with code `code` was active and unclaimed. */
  predicate HadStock(pool: Pool, code: string)
  {
    exists j :: 0 <= j < |pool| && Available(pool[j]) && pool[j].code == code
  }

  lemma AvailableCodeHadStock(pool: Pool, k: nat)
    requires k < |AvailableCodes(pool)|
    ensures HadStock(pool, AvailableCodes(pool)[k])
  {
    var f := Filter(pool, Available);
    FilteredFromPool(pool, k);
    var j :| 0 <= j < |pool| && pool[j] == f[k];
    assert Available(pool[j]) && pool[j].code == AvailableCodes(pool)[k];
  }
}
