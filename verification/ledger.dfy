/**
 The claim ledger: the claim document schema, the unique-pair insert it implies, and the admin
 routes that read it, newest-first paged history and the claim counters.
 No route in the system writes a claim document; `Insert` models what the schema admits.
 */
module Ledger {
  import opened Common
  import opened Seqs

  datatype Status = Pending | Approved | Rejected

  /** A stored claim document. Times are milliseconds. */
  datatype ClaimRecord = ClaimRecord(
    userId: string,
    couponCode: string,
    status: Status,
    timestamp: int,
    ipAddress: Option<string>,
    deviceInfo: Option<string>,
    email: Option<string>,
    notes: Option<string>)

  type Ledger = seq<ClaimRecord>

  /** The fields supplied when a claim document is created; absent ones take the schema defaults. */
  datatype ClaimDraft = ClaimDraft(
    userId: Option<string>,
    couponCode: Option<string>,
    status: Option<string>,
    timestamp: Option<int>,
    ipAddress: Option<string>,
    deviceInfo: Option<string>,
    email: Option<string>,
    notes: Option<string>)

  function StatusName(st: Status): string
  {
    match st
    case Pending => "pending"
    case Approved => "approved"
    case Rejected => "rejected"
  }

  /** The status enum: exactly the three names are accepted. */
  function ParseStatus(s: string): (r: Option<Status>)
    ensures r.Some? <==> s == "pending" || s == "approved" || s == "rejected"
    ensures r.Some? ==> StatusName(r.value) == s
  {
    if s == "pending" then Some(Pending)
    else if s == "approved" then Some(Approved)
    else if s == "rejected" then Some(Rejected)
    else None
  }

  /** Every status reads back as itself, so the names are distinct. */
  lemma StatusRoundTrip(st: Status)
    ensures ParseStatus(StatusName(st)) == Some(st)
  {
  }

  /** A `required: true` string: present and not empty. */
  predicate Required(f: Option<string>)
  {
    f.Some? && f.value != ""
  }

  /** The draft passes the schema's validators. */
  predicate ValidDraft(d: ClaimDraft)
  {
    && Required(d.userId)
    && Required(d.couponCode)
    && (d.status.Some? ==> ParseStatus(d.status.value).Some?)
  }

  /** Some record already pairs this coupon code with this user. */
  predicate HasPair(ledger: Ledger, couponCode: string, userId: string)
  {
    exists i :: 0 <= i < |ledger| && ledger[i].couponCode == couponCode && ledger[i].userId == userId
  }

  /** The unique `(couponCode, userId)` index. */
  predicate PairsUnique(ledger: Ledger)
  {
    forall i, j :: 0 <= i < j < |ledger| ==>
      !(ledger[i].couponCode == ledger[j].couponCode && ledger[i].userId == ledger[j].userId)
  }

  /** The document a valid draft becomes: status defaults to pending, timestamp to the creation time. */
  function MakeRecord(d: ClaimDraft, now: int): (r: ClaimRecord)
    requires ValidDraft(d)
    ensures r.userId == d.userId.value && r.couponCode == d.couponCode.value
    ensures d.status.None? ==> r.status == Pending
    ensures d.status.Some? ==> StatusName(r.status) == d.status.value
    ensures r.timestamp == d.timestamp.GetOr(now)
    ensures r.ipAddress == d.ipAddress && r.deviceInfo == d.deviceInfo && r.email == d.email && r.notes == d.notes
  {
    ClaimRecord(
      d.userId.value,
      d.couponCode.value,
      if d.status.Some? then ParseStatus(d.status.value).value else Pending,
      d.timestamp.GetOr(now),
      d.ipAddress, d.deviceInfo, d.email, d.notes)
  }

  datatype InsertError = ValidationFailed | DuplicateKey

  /**
   Creating a claim document: the schema's validators run first, then the unique index refuses a
   second document for the same coupon code and user. Only a success changes the ledger, and
   then only by appending.
   */
  function Insert(ledger: Ledger, d: ClaimDraft, now: int): (r: Result<Ledger, InsertError>)
    ensures r == Err(ValidationFailed) <==> !ValidDraft(d)
    ensures r == Err(DuplicateKey) <==> ValidDraft(d) && HasPair(ledger, d.couponCode.value, d.userId.value)
    ensures r.Ok? ==> ValidDraft(d) && r.value == ledger + [MakeRecord(d, now)]
  {
    if !ValidDraft(d) then Err(ValidationFailed)
    else if HasPair(ledger, d.couponCode.value, d.userId.value) then Err(DuplicateKey)
    else Ok(ledger + [MakeRecord(d, now)])
  }

  /** The ledger never holds two records for one (coupon code, user) pair. */
  lemma InsertKeepsPairsUnique(ledger: Ledger, d: ClaimDraft, now: int)
    requires PairsUnique(ledger)
    requires Insert(ledger, d, now).Ok?
    ensures PairsUnique(Insert(ledger, d, now).value)
  {
    var l := Insert(ledger, d, now).value;
    forall i, j | 0 <= i < j < |l|
      ensures !(l[i].couponCode == l[j].couponCode && l[i].userId == l[j].userId)
    {
      if j == |ledger| {
        assert l[i] == ledger[i];
      }
    }
  }

  /** Inserting the same valid draft twice fails the second time, whatever the clock says. */
  lemma SecondInsertFails(ledger: Ledger, d: ClaimDraft, now1: int, now2: int)
    requires Insert(ledger, d, now1).Ok?
    ensures Insert(Insert(ledger, d, now1).value, d, now2) == Err(DuplicateKey)
  {
    var l := Insert(ledger, d, now1).value;
    assert l[|ledger|] == MakeRecord(d, now1);
  }

  /** Records in descending timestamp order: each record is no older than the next. */
  predicate NewestFirst(l: Ledger)
    decreases |l|
  {
    |l| <= 1 || (l[0].timestamp >= l[1].timestamp && NewestFirst(l[1..]))
  }

  /** Descending order read pairwise: every record is no older than every record after it. */
  lemma {:induction false} NewestFirstPairwise(l: Ledger)
    ensures NewestFirst(l) <==> forall i, j :: 0 <= i < j < |l| ==> l[i].timestamp >= l[j].timestamp
    decreases |l|
  {
    if |l| > 1 {
      var t := l[1..];
      NewestFirstPairwise(t);
      if NewestFirst(l) {
        forall i, j | 0 <= i < j < |l|
          ensures l[i].timestamp >= l[j].timestamp
        {
          assert l[j] == t[j - 1];
          if i > 0 {
            assert l[i] == t[i - 1];
          } else if j > 1 {
            assert t[0].timestamp >= t[j - 1].timestamp;
          }
        }
      }
      if forall i, j :: 0 <= i < j < |l| ==> l[i].timestamp >= l[j].timestamp {
        forall i, j | 0 <= i < j < |t|
          ensures t[i].timestamp >= t[j].timestamp
        {
          assert t[i] == l[i + 1] && t[j] == l[j + 1];
        }
        assert l[0].timestamp >= l[1].timestamp;
      }
    }
  }

  /** Every slice of a newest-first sequence is newest first. */
  lemma SliceNewestFirst(l: Ledger, a: int, b: int)
    requires NewestFirst(l) && 0 <= a <= b <= |l|
    ensures NewestFirst(l[a..b])
  {
    NewestFirstPairwise(l);
    NewestFirstPairwise(l[a..b]);
    forall i, j | 0 <= i < j < b - a
      ensures l[a..b][i].timestamp >= l[a..b][j].timestamp
    {
      assert l[a..b][i] == l[a + i] && l[a..b][j] == l[a + j];
    }
  }

  /** Every window of a newest-first sequence is newest first. */
  lemma WindowNewestFirst(sorted: Ledger, from: int, size: nat)
    requires NewestFirst(sorted) && from >= 0
    ensures NewestFirst(Window(sorted, from, size))
  {
    SliceNewestFirst(sorted, Min(from, |sorted|), Min(from + size, |sorted|));
  }

  /** Places `x` into a newest-first sequence. */
  function InsertNewest(x: ClaimRecord, l: Ledger): (r: Ledger)
    requires NewestFirst(l)
    ensures NewestFirst(r)
    ensures |r| == |l| + 1
    ensures r[0] == x || (|l| > 0 && r[0] == l[0])
    decreases |l|
  {
    if |l| == 0 then [x]
    else if x.timestamp >= l[0].timestamp then
      assert ([x] + l)[1..] == l;
      [x] + l
    else
      var rest := InsertNewest(x, l[1..]);
      assert ([l[0]] + rest)[1..] == rest;
      [l[0]] + rest
  }

  /** Placing a record adds exactly that record: the result is a permutation of `l` and `x`. */
  lemma {:induction false} InsertNewestPermutes(x: ClaimRecord, l: Ledger)
    requires NewestFirst(l)
    ensures multiset(InsertNewest(x, l)) == multiset(l) + multiset{x}
    decreases |l|
  {
    if |l| > 0 && x.timestamp < l[0].timestamp {
      InsertNewestPermutes(x, l[1..]);
      assert l == [l[0]] + l[1..];
    }
  }

  /** The ledger in the order `sort({ timestamp: -1 })` reads it. */
  function SortNewestFirst(l: Ledger): (r: Ledger)
    ensures NewestFirst(r)
    ensures |r| == |l|
    decreases |l|
  {
    if |l| == 0 then []
    else InsertNewest(l[0], SortNewestFirst(l[1..]))
  }

  /** Sorting only reorders: the sorted ledger holds the same records, each as often. */
  lemma {:induction false} SortIsPermutation(l: Ledger)
    ensures multiset(SortNewestFirst(l)) == multiset(l)
    decreases |l|
  {
    if |l| > 0 {
      var t := SortNewestFirst(l[1..]);
      SortIsPermutation(l[1..]);
      InsertNewestPermutes(l[0], t);
      HeadAndTail(l, t, InsertNewest(l[0], t));
    }
  }

  /** Whatever holds the tail's records and the head once more holds the whole ledger's. */
  lemma HeadAndTail(l: Ledger, t: Ledger, r: Ledger)
    requires |l| > 0
    requires multiset(t) == multiset(l[1..])
    requires multiset(r) == multiset(t) + multiset{l[0]}
    ensures multiset(r) == multiset(l)
  {
    assert l == [l[0]] + l[1..];
  }

  const DefaultPage := 1
  const DefaultLimit := 50

  datatype HistoryError = NegativeSkip

  function Abs(x: int): nat
  {
    if x < 0 then -x else x
  }

  /** How many records a page holds: a zero limit means no limit, a negative one its magnitude. */
  function PageSize(limit: int, available: nat): nat
  {
    if limit == 0 then available else Abs(limit)
  }

  /**
   The number of records a page skips, `(page - 1) * limit`, counted out one page at a time from
   page 1; `SkipIsProduct` shows the two agree.
   */
  function Skip(page: int, limit: int): int
    decreases if page >= 1 then page - 1 else 1 - page
  {
    if page == 1 then 0
    else if page > 1 then Skip(page - 1, limit) + limit
    else Skip(page + 1, limit) - limit
  }

  /** `Skip` is the product the route computes. */
  lemma {:induction false} SkipIsProduct(page: int, limit: int)
    ensures Skip(page, limit) == (page - 1) * limit
    decreases if page >= 1 then page - 1 else 1 - page
  {
    if page > 1 {
      SkipIsProduct(page - 1, limit);
    } else if page < 1 {
      SkipIsProduct(page + 1, limit);
    }
  }

  /** `r` is the run of `sorted` that starts at index `from`. */
  predicate IsRunAt(r: Ledger, sorted: Ledger, from: int)
  {
    forall k {:trigger r[k]} :: 0 <= k < |r| ==> 0 <= from + k < |sorted| && r[k] == sorted[from + k]
  }

  /** The newest-first records from index `from`, at most `size` of them. */
  function Window(sorted: Ledger, from: int, size: nat): (r: Ledger)
    requires from >= 0
    ensures |r| <= size
    ensures from >= |sorted| ==> r == []
    ensures IsRunAt(r, sorted, from)
    ensures from + size <= |sorted| ==> |r| == size
    ensures from <= |sorted| ==> |r| == Min(size, |sorted| - from)
  {
    sorted[Min(from, |sorted|)..Min(from + size, |sorted|)]
  }

  /**
   `GET /claims`: page and limit default to 1 and 50; the ledger is read newest first, the first
   `(page - 1) * limit` records are skipped and the next `limit` returned, or all that remain
   when fewer do (a zero limit returns all of them). The store refuses a negative skip.
   */
  function History(ledger: Ledger, page: Option<int>, limit: Option<int>): (r: Result<Ledger, HistoryError>)
    ensures r.Err? <==> Skip(page.GetOr(DefaultPage), limit.GetOr(DefaultLimit)) < 0
    ensures r.Ok? ==> NewestFirst(r.value)
    ensures r.Ok? && limit.GetOr(DefaultLimit) > 0 ==> |r.value| <= limit.GetOr(DefaultLimit)
    ensures r.Ok? ==> IsRunAt(r.value, SortNewestFirst(ledger), Skip(page.GetOr(DefaultPage), limit.GetOr(DefaultLimit)))
    ensures r.Ok? && Skip(page.GetOr(DefaultPage), limit.GetOr(DefaultLimit)) >= |ledger| ==> r.value == []
    ensures r.Ok? && Skip(page.GetOr(DefaultPage), limit.GetOr(DefaultLimit)) < |ledger| ==>
      |r.value| == Min(PageSize(limit.GetOr(DefaultLimit), |ledger|), |ledger| - Skip(page.GetOr(DefaultPage), limit.GetOr(DefaultLimit)))
  {
    var l := limit.GetOr(DefaultLimit);
    var skip := Skip(page.GetOr(DefaultPage), l);
    if skip < 0 then Err(NegativeSkip)
    else
      var sorted := SortNewestFirst(ledger);
      var size := PageSize(l, |sorted|);
      WindowNewestFirst(sorted, skip, size);
      Ok(Window(sorted, skip, size))
  }

  /** A page holds only records of the ledger. */
  lemma HistoryRecordsFromLedger(ledger: Ledger, page: Option<int>, limit: Option<int>)
    requires History(ledger, page, limit).Ok?
    ensures forall k :: 0 <= k < |History(ledger, page, limit).value| ==> History(ledger, page, limit).value[k] in ledger
  {
    var skip := Skip(page.GetOr(DefaultPage), limit.GetOr(DefaultLimit));
    SortIsPermutation(ledger);
    RunRecordsFromLedger(History(ledger, page, limit).value, SortNewestFirst(ledger), skip, ledger);
  }

  /** A run of a reordering of the ledger holds only records of the ledger. */
  lemma RunRecordsFromLedger(r: Ledger, sorted: Ledger, from: int, ledger: Ledger)
    requires IsRunAt(r, sorted, from)
    requires multiset(sorted) == multiset(ledger)
    ensures forall k :: 0 <= k < |r| ==> r[k] in ledger
  {
    forall k | 0 <= k < |r|
      ensures r[k] in ledger
    {
      var x := r[k];
      assert x == sorted[from + k];
      assert x in multiset(sorted);
    }
  }

  /** Leaving out page and limit asks for the first page of fifty: the fifty newest records. */
  lemma HistoryDefaults(ledger: Ledger)
    ensures History(ledger, None, None) == History(ledger, Some(1), Some(50))
    ensures History(ledger, None, None).Ok?
    ensures |History(ledger, None, None).value| == Min(50, |ledger|)
  {
  }

  /**
   Consecutive pages tile the newest-first ledger: page p followed by page p + 1 is the run of
   at most 2 * limit records starting at index (p - 1) * limit.
   */
  lemma PagesTile(ledger: Ledger, p: int, limit: int)
    requires p >= 1 && limit > 0
    ensures History(ledger, Some(p), Some(limit)).Ok? && History(ledger, Some(p + 1), Some(limit)).Ok?
    ensures Skip(p, limit) >= 0
    ensures History(ledger, Some(p), Some(limit)).value + History(ledger, Some(p + 1), Some(limit)).value
         == Window(SortNewestFirst(ledger), Skip(p, limit), 2 * limit)
  {
    PagesSucceed(ledger, p, p + 1, limit);
    PagesConcat(ledger, p, limit);
  }

  /** With a positive limit, any two positive pages both succeed. */
  lemma PagesSucceed(ledger: Ledger, p: int, q: int, limit: int)
    requires p >= 1 && q >= 1 && limit > 0
    ensures History(ledger, Some(p), Some(limit)).Ok? && History(ledger, Some(q), Some(limit)).Ok?
  {
    HistoryPage(ledger, p, limit);
    HistoryPage(ledger, q, limit);
  }

  /** The concatenation step of `PagesTile`, once both pages are known to succeed. */
  lemma PagesConcat(ledger: Ledger, p: int, limit: int)
    requires p >= 1 && limit > 0
    requires History(ledger, Some(p), Some(limit)).Ok? && History(ledger, Some(p + 1), Some(limit)).Ok?
    ensures Skip(p, limit) >= 0
    ensures History(ledger, Some(p), Some(limit)).value + History(ledger, Some(p + 1), Some(limit)).value
         == Window(SortNewestFirst(ledger), Skip(p, limit), 2 * limit)
  {
    HistoryPage(ledger, p, limit);
    HistoryPage(ledger, p + 1, limit);
    SkipStep(p, limit);
    AdjacentWindows(SortNewestFirst(ledger), Skip(p, limit), Skip(p + 1, limit), limit);
  }

  /** Windows of one size starting one size apart make one window of twice the size. */
  lemma AdjacentWindows(sorted: Ledger, s0: int, s1: int, size: nat)
    requires s0 >= 0 && s1 == s0 + size
    ensures Window(sorted, s0, size) + Window(sorted, s1, size) == Window(sorted, s0, 2 * size)
  {
    WindowsTile(sorted, s0, size);
  }

  /** Two adjacent windows of the same size make one window of twice the size. */
  lemma WindowsTile(sorted: Ledger, from: int, size: nat)
    requires from >= 0
    ensures Window(sorted, from, size) + Window(sorted, from + size, size) == Window(sorted, from, 2 * size)
  {
    var n := |sorted|;
    var a, b, c := Min(from, n), Min(from + size, n), Min(from + size + size, n);
    assert sorted[a..b] + sorted[b..c] == sorted[a..c];
  }

  /** With a positive page and limit, a page is the window of `limit` records after the skip. */
  lemma HistoryPage(ledger: Ledger, p: int, limit: int)
    requires p >= 1 && limit > 0
    ensures Skip(p, limit) >= 0
    ensures History(ledger, Some(p), Some(limit)) == Ok(Window(SortNewestFirst(ledger), Skip(p, limit), limit))
  {
    SkipNonNegative(p, limit);
    assert PageSize(limit, |ledger|) == limit;
  }

  lemma SkipStep(p: int, limit: int)
    ensures Skip(p + 1, limit) == Skip(p, limit) + limit
  {
  }

  lemma {:induction false} SkipNonNegative(p: int, limit: int)
    requires p >= 1 && limit >= 0
    ensures Skip(p, limit) >= 0
    decreases p
  {
    if p > 1 {
      SkipNonNegative(p - 1, limit);
    }
  }

  /** The number of records stamped at or after `since`. */
  function CountSince(ledger: Ledger, since: int): nat
  {
    Count(ledger, (r: ClaimRecord) => r.timestamp >= since)
  }

  datatype ClaimStats = ClaimStats(totalClaims: nat, todayClaims: nat)

  /**
   `GET /claims/stats`: every claim, and the claims stamped at or after the start of the current
   day (midnight, supplied by the caller).
   */
  function Stats(ledger: Ledger, startOfDay: int): (r: ClaimStats)
    ensures r.totalClaims == |ledger|
    ensures r.todayClaims <= r.totalClaims
  {
    ClaimStats(|ledger|, CountSince(ledger, startOfDay))
  }

  /**
   The day's count is inclusive at midnight and counts nothing else: an empty ledger counts zero,
   and appending a record adds one exactly when it is stamped at or after the boundary.
   */
  lemma TodayCountsFromBoundary(ledger: Ledger, x: ClaimRecord, startOfDay: int)
    ensures Stats([], startOfDay).todayClaims == 0
    ensures Stats(ledger + [x], startOfDay).todayClaims
         == Stats(ledger, startOfDay).todayClaims + (if x.timestamp >= startOfDay then 1 else 0)
  {
    CountSnoc(ledger, x, (r: ClaimRecord) => r.timestamp >= startOfDay);
  }

  /** Every claim counts as today's exactly when every claim is stamped at or after midnight. */
  lemma TodayEqualsTotalIffAllToday(ledger: Ledger, startOfDay: int)
    ensures Stats(ledger, startOfDay).todayClaims == Stats(ledger, startOfDay).totalClaims
        <==> forall i :: 0 <= i < |ledger| ==> ledger[i].timestamp >= startOfDay
  {
    CountAllIff(ledger, (r: ClaimRecord) => r.timestamp >= startOfDay);
  }

  /** An earlier boundary never counts fewer claims. */
  lemma CountSinceAntitone(ledger: Ledger, early: int, late: int)
    requires early <= late
    ensures CountSince(ledger, late) <= CountSince(ledger, early)
  {
    CountMonotone(ledger, (r: ClaimRecord) => r.timestamp >= late, (r: ClaimRecord) => r.timestamp >= early);
  }
}
