/**
 Inventory management: the admin route that adds a coupon, the dashboard's guard in front of it,
 and the dashboard's status toggle, which sends the flipped status for a coupon it has listed.
 */
module Inventory {
  import opened Common
  import opened Seqs
  import opened Text
  import opened CouponStore
  import Allocator

  /** The `code` field of the request body, as the route's `typeof` test sees it. */
  datatype CodeField = Absent | NotAString | Str(s: string)

  /** The request body: not a JSON object at all, or an object carrying a `code` field. */
  datatype AddBody = NotAnObject | Object(code: CodeField)

  datatype AddOutcome =
    | Added(coupon: Coupon)
    | BodyNotJson     // 400 "Request body must be JSON"
    | CodeRequired    // 400 "Valid 'code' string is required in request body"
    | CodeExists      // 409 "Coupon code already exists": the unique index refused the insert
    | StoreRejected   // 500 "Internal server error": the schema refused an empty code

  datatype AddStep = AddStep(outcome: AddOutcome, pool: Pool)

  /** The body carries a code the route accepts for formatting: a non-empty string. */
  predicate SuppliesCode(body: AddBody)
  {
    body.Object? && body.code.Str? && body.code.s != ""
  }

  /**
   `POST /coupons`. A body that is not an object, or a `code` that is missing, not a string or
   empty, is refused before anything is stored. Otherwise the code is trimmed and upper-cased; a
   code that trims to nothing fails the schema's `required` check, and one already in the pool
   fails the unique index. Otherwise a coupon with the schema defaults (active, unclaimed) is
   stored under a new identity. Every failure leaves the pool as it was.
   */
  function AddCoupon(pool: Pool, body: AddBody): (r: AddStep)
    ensures !r.outcome.Added? ==> r.pool == pool
    ensures r.outcome.BodyNotJson? <==> body.NotAnObject?
    ensures r.outcome.CodeRequired? <==> body.Object? && !SuppliesCode(body)
    ensures r.outcome.StoreRejected? <==> SuppliesCode(body) && Normalize(body.code.s) == ""
    ensures r.outcome.CodeExists? <==>
      SuppliesCode(body) && Normalize(body.code.s) != "" && Normalize(body.code.s) in Codes(pool)
    ensures r.outcome.Added? ==>
      && SuppliesCode(body)
      && r.pool == pool + [r.outcome.coupon]
      && r.outcome.coupon.code == Normalize(body.code.s)
      && r.outcome.coupon.isActive
      && r.outcome.coupon.claimedBy.None? && r.outcome.coupon.claimedAt.None?
      && forall j :: 0 <= j < |pool| ==> pool[j].id < r.outcome.coupon.id
  {
    if body.NotAnObject? then AddStep(BodyNotJson, pool)
    else if !SuppliesCode(body) then AddStep(CodeRequired, pool)
    else
      var formatted := Normalize(body.code.s);
      if formatted == "" then AddStep(StoreRejected, pool)
      else if formatted in Codes(pool) then AddStep(CodeExists, pool)
      else
        var c := NewCoupon(NextId(pool), formatted);
        AddStep(Added(c), pool + [c])
  }

  /**
   Adding keeps the pool's invariants: identities ascend, codes stay unique, every stored code is
   non-empty, trimmed and upper-case, and claim stamps stay consistent.
   */
  lemma AddKeepsWellFormed(pool: Pool, body: AddBody)
    requires WellFormed(pool)
    ensures WellFormed(AddCoupon(pool, body).pool)
  {
    var r := AddCoupon(pool, body);
    if r.outcome.Added? {
      NormalizeYieldsNormal(body.code.s);
      AppendKeepsWellFormed(pool, r.outcome.coupon);
    }
  }

  /**
   A freshly added coupon can be claimed: it matches the claim query and the stock grows by one.
   */
  lemma AddedCouponIsClaimable(pool: Pool, body: AddBody)
    requires AddCoupon(pool, body).outcome.Added?
    ensures Allocator.Available(AddCoupon(pool, body).outcome.coupon)
    ensures Allocator.AvailableCount(AddCoupon(pool, body).pool) == Allocator.AvailableCount(pool) + 1
  {
    var r := AddCoupon(pool, body);
    CountSnoc(pool, r.outcome.coupon, Allocator.Available);
  }

  /**
   Codes collide after normalisation: once a code has been added, adding any non-empty string
   that normalises to the same code fails with a conflict and changes nothing.
   */
  lemma AddRejectsNormalisedDuplicate(pool: Pool, first: string, second: string)
    requires AddCoupon(pool, Object(Str(first))).outcome.Added?
    requires second != "" && Normalize(second) == Normalize(first)
    ensures var p := AddCoupon(pool, Object(Str(first))).pool;
            AddCoupon(p, Object(Str(second))) == AddStep(CodeExists, p)
  {
    var p := AddCoupon(pool, Object(Str(first))).pool;
    assert Codes(p)[|pool|] == Normalize(first);
  }

  /**
   The dashboard's add button: nothing is sent without a session token or when the input trims
   to nothing; otherwise the raw input goes to the route.
   */
  function HandleAddCoupon(hasToken: bool, input: string, pool: Pool): (r: Option<AddStep>)
    ensures r.None? <==> !hasToken || Trim(input) == ""
    ensures r.Some? ==> r.value == AddCoupon(pool, Object(Str(input)))
  {
    if hasToken && Trim(input) != "" then Some(AddCoupon(pool, Object(Str(input)))) else None
  }

  /**
   The guard screens out exactly the inputs the route would refuse as missing or blank: whatever
   it lets through is either added or refused as a duplicate.
   */
  lemma GuardScreensBlankCodes(hasToken: bool, input: string, pool: Pool)
    requires HandleAddCoupon(hasToken, input, pool).Some?
    ensures HandleAddCoupon(hasToken, input, pool).value.outcome.Added?
         || HandleAddCoupon(hasToken, input, pool).value.outcome.CodeExists?
  {
    var t := Trim(input);
    assert |ToUpper(t)| == |t|;
  }

  datatype ToggleOutcome =
    | CouponNotFound                      // "Coupon not found": no request is issued
    | UpdateRequested(id: nat, isActive: bool)

  /** The index of the first listed coupon with identity `id`, as `coupons.find`. */
  function FindIndex(coupons: Pool, id: nat): (r: Option<nat>)
    ensures r.None? <==> forall j :: 0 <= j < |coupons| ==> coupons[j].id != id
    ensures r.Some? ==> r.value < |coupons| && coupons[r.value].id == id
    ensures r.Some? ==> forall j :: 0 <= j < r.value ==> coupons[j].id != id
    decreases |coupons|
  {
    if |coupons| == 0 then None
    else if coupons[0].id == id then Some(0)
    else match FindIndex(coupons[1..], id)
      case None => None
      case Some(k) => Some(k + 1)
  }

  /**
   The dashboard's toggle: looks the coupon up in the list it holds; an unknown identity fails
   with "Coupon not found" and requests nothing, a known one requests the opposite status.
   */
  function ToggleCouponStatus(coupons: Pool, id: nat): (r: ToggleOutcome)
    ensures r.CouponNotFound? <==> forall j :: 0 <= j < |coupons| ==> coupons[j].id != id
    ensures r.UpdateRequested? ==>
      r.id == id && exists j :: 0 <= j < |coupons| && coupons[j].id == id && r.isActive == !coupons[j].isActive
                            && forall k :: 0 <= k < j ==> coupons[k].id != id
  {
    match FindIndex(coupons, id)
    case None => CouponNotFound
    case Some(j) => UpdateRequested(id, !coupons[j].isActive)
  }

  /** The list as it reads back once a requested status update for `id` has taken effect. */
  function SetStatus(coupons: Pool, id: nat, active: bool): (r: Pool)
    ensures |r| == |coupons|
    ensures forall j :: 0 <= j < |coupons| ==>
      r[j] == (if coupons[j].id == id then coupons[j].(isActive := active) else coupons[j])
  {
    seq(|coupons|, j requires 0 <= j < |coupons| =>
      if coupons[j].id == id then coupons[j].(isActive := active) else coupons[j])
  }

  /** The list after one toggle whose request took effect. */
  function Toggled(coupons: Pool, id: nat): Pool
  {
    match ToggleCouponStatus(coupons, id)
    case CouponNotFound => coupons
    case UpdateRequested(i, a) => SetStatus(coupons, i, a)
  }

  /**
   A toggle flips the status of the coupon it names and of nothing else, and touches no claim
   stamp; toggling the same coupon twice restores the list.
   */
  lemma ToggleTwiceRestores(coupons: Pool, id: nat)
    requires IdsDistinct(coupons)
    ensures forall j :: 0 <= j < |coupons| ==>
      Toggled(coupons, id)[j].isActive == (if coupons[j].id == id then !coupons[j].isActive else coupons[j].isActive)
    ensures forall j :: 0 <= j < |coupons| ==>
      Toggled(coupons, id)[j] == coupons[j].(isActive := Toggled(coupons, id)[j].isActive)
    ensures Toggled(Toggled(coupons, id), id) == coupons
  {
    match FindIndex(coupons, id)
    case None =>
    case Some(k) =>
      var a := !coupons[k].isActive;
      var once := SetStatus(coupons, id, a);
      assert Toggled(coupons, id) == once;
      OnlyOneWithId(coupons, id, k);
      FindAfterSetStatus(coupons, id, a);
      assert Toggled(once, id) == SetStatus(once, id, coupons[k].isActive);
      var twice := SetStatus(once, id, coupons[k].isActive);
      forall j | 0 <= j < |coupons|
        ensures twice[j] == coupons[j]
      {
      }
  }

  /** With distinct identities, the coupon found is the only one carrying its identity. */
  lemma OnlyOneWithId(coupons: Pool, id: nat, k: nat)
    requires IdsDistinct(coupons)
    requires k < |coupons| && coupons[k].id == id
    ensures forall j :: 0 <= j < |coupons| && coupons[j].id == id ==> j == k
  {
    forall j | 0 <= j < |coupons| && coupons[j].id == id
      ensures j == k
    {
    }
  }

  /** A status update keeps every identity, so the same coupon is found afterwards. */
  lemma FindAfterSetStatus(coupons: Pool, id: nat, active: bool)
    ensures FindIndex(SetStatus(coupons, id, active), id) == FindIndex(coupons, id)
  {
    FindIndexSameIds(SetStatus(coupons, id, active), coupons, id);
  }

  /** The search reads only identities, so two lists with the same identities in the same places
      find the same index. */
  lemma {:induction false} FindIndexSameIds(p: Pool, q: Pool, id: nat)
    requires |p| == |q| && forall j :: 0 <= j < |p| ==> p[j].id == q[j].id
    ensures FindIndex(p, id) == FindIndex(q, id)
    decreases |p|
  {
    if |p| > 0 && p[0].id != id {
      assert forall j :: 0 <= j < |p| - 1 ==> p[1..][j].id == q[1..][j].id by {
        forall j | 0 <= j < |p| - 1
          ensures p[1..][j].id == q[1..][j].id
        {
          assert p[1..][j] == p[j + 1] && q[1..][j] == q[j + 1];
        }
      }
      FindIndexSameIds(p[1..], q[1..], id);
    }
  }

  /**
   Deactivation withdraws a coupon from future claims without touching its claim: the coupon no
   longer matches the claim query, and its claimant and claim time are as before.
   */
  lemma DeactivateWithdrawsFromStock(coupons: Pool, id: nat)
    ensures forall j :: 0 <= j < |coupons| && coupons[j].id == id ==>
      && !Allocator.Available(SetStatus(coupons, id, false)[j])
      && SetStatus(coupons, id, false)[j].claimedBy == coupons[j].claimedBy
      && SetStatus(coupons, id, false)[j].claimedAt == coupons[j].claimedAt
    ensures Allocator.AvailableCount(SetStatus(coupons, id, false)) <= Allocator.AvailableCount(coupons)
  {
    var r := SetStatus(coupons, id, false);
    DeactivateCount(coupons, id);
  }

  lemma {:induction false} DeactivateCount(coupons: Pool, id: nat)
    ensures Allocator.AvailableCount(SetStatus(coupons, id, false)) <= Allocator.AvailableCount(coupons)
    decreases |coupons|
  {
    if |coupons| > 0 {
      DeactivateCount(coupons[1..], id);
      assert SetStatus(coupons, id, false)[1..] == SetStatus(coupons[1..], id, false);
    }
  }

  /** A status update keeps the pool's invariants. */
  lemma SetStatusKeepsWellFormed(coupons: Pool, id: nat, active: bool)
    requires WellFormed(coupons)
    ensures WellFormed(SetStatus(coupons, id, active))
  {
    var r := SetStatus(coupons, id, active);
    assert forall j :: 0 <= j < |coupons| ==> r[j].id == coupons[j].id && r[j].code == coupons[j].code;
  }
}
