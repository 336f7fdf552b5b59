/**
 The coupon record and the constraints the coupon schema puts on the stored pool.
 The pool is the collection of coupon documents in ascending `_id` order.
 */
module CouponStore {
  import opened Common
  import opened Text

  /** A coupon document. `id` stands for the store's `_id`; `claimedBy` is the claimant IP and
      `claimedAt` the claim time in milliseconds (both `null` while unclaimed). The front end's
      `status: 'active' | 'inactive'` is the same boolean as `isActive`. */
  datatype Coupon = Coupon(
    id: nat,
    code: string,
    isActive: bool,
    claimedBy: Option<string>,
    claimedAt: Option<int>)

  type Pool = seq<Coupon>

  /** A code the schema accepts: present, non-empty, already trimmed and upper-case (so that
      `Normalize` leaves it as it is, by `Text.NormalIffFixed`). */
  predicate ValidCode(s: string)
  {
    s != "" && IsNormal(s)
  }

  predicate IdsAscending(pool: Pool)
  {
    forall i, j :: 0 <= i < j < |pool| ==> pool[i].id < pool[j].id
  }

  predicate IdsDistinct(pool: Pool)
  {
    forall i, j :: 0 <= i < j < |pool| ==> pool[i].id != pool[j].id
  }

  predicate CodesUnique(pool: Pool)
  {
    forall i, j :: 0 <= i < j < |pool| ==> pool[i].code != pool[j].code
  }

  /** The claim stamp is all or nothing: `claimedBy` is set exactly when `claimedAt` is. */
  predicate StampConsistent(c: Coupon)
  {
    c.claimedBy.Some? <==> c.claimedAt.Some?
  }

  /** The invariants of the stored pool. */
  predicate WellFormed(pool: Pool)
  {
    && IdsAscending(pool)
    && CodesUnique(pool)
    && (forall i :: 0 <= i < |pool| ==> ValidCode(pool[i].code) && StampConsistent(pool[i]))
  }

  /** The codes of the pool, in pool order. */
  function Codes(pool: Pool): (r: seq<string>)
    ensures |r| == |pool|
    ensures forall i :: 0 <= i < |pool| ==> r[i] == pool[i].code
  {
    seq(|pool|, i requires 0 <= i < |pool| => pool[i].code)
  }

  /** The identity the store gives the next inserted document: larger than every existing one. */
  function NextId(pool: Pool): (r: nat)
    ensures forall i :: 0 <= i < |pool| ==> pool[i].id < r
    decreases |pool|
  {
    if |pool| == 0 then 0
    else
      var rest := NextId(pool[..|pool| - 1]);
      var last := pool[|pool| - 1].id + 1;
      if rest < last then last else rest
  }

  /** A document built from the schema defaults: active, not claimed, no claim time. */
  function NewCoupon(id: nat, code: string): (c: Coupon)
    ensures c.id == id && c.code == code
    ensures c.isActive && c.claimedBy.None? && c.claimedAt.None?
    ensures StampConsistent(c)
  {
    Coupon(id, code, true, None, None)
  }

  /** Appending a valid, unused code under a fresh, larger identity keeps the pool well formed. */
  lemma AppendKeepsWellFormed(pool: Pool, c: Coupon)
    requires WellFormed(pool)
    requires ValidCode(c.code) && StampConsistent(c)
    requires c.code !in Codes(pool)
    requires forall i :: 0 <= i < |pool| ==> pool[i].id < c.id
    ensures WellFormed(pool + [c])
  {
    var p := pool + [c];
    forall i, j | 0 <= i < j < |p|
      ensures p[i].id < p[j].id && p[i].code != p[j].code
    {
      assert p[i] == pool[i];
      if j == |pool| {
        assert p[j] == c;
        assert Codes(pool)[i] == pool[i].code;
      } else {
        assert p[j] == pool[j];
      }
    }
    forall i | 0 <= i < |p|
      ensures ValidCode(p[i].code) && StampConsistent(p[i])
    {
      if i < |pool| {
        assert p[i] == pool[i];
      } else {
        assert p[i] == c;
      }
    }
  }
}
