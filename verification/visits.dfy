/** Reading a customer, recording a visit (which issues a coupon) and
    redeeming a coupon. Each resolves the customer first and then works on
    the last record the chosen query returns; a write replaces that whole
    record. */
module Visits {
  import opened Decimal
  import opened Store
  import opened Resolver
  import opened Coupons
  import Lifecycle

  const CouponMissingMessage := "Coupon niet gevonden"
  const CouponUsedMessage := "Coupon gevonden en gebruikt."

  /** The range `randint(100000, 100000000)` draws a coupon code from. */
  const MinCode: nat := 100000
  const MaxCode: nat := 100000000

  /** `get_customer`: a pure read. */
  function GetCustomer(s: seq<Customer>, naw: Naw, klantId: Option<string>): (r: Response<Customer>)
    ensures NoneMatch(s, ByNaw(naw)) ==> r == Refused(NotFoundMessage)
    ensures Duplicated(s, naw) && klantId.None? ==> r == Refused(AmbiguousMessage)
    ensures Crashes(s, naw, klantId) ==> r == Unbound
    ensures forall i: nat :: IsTarget(s, naw, klantId, i) ==> r == Ok(s[i])
  {
    match Locate(s, naw, klantId)
    case Refusal(m) => Refused(m)
    case NoResult => Unbound
    case At(i) => Ok(s[i])
  }

  /** The record `get_customer` hands back is the last one its query
      produced; with no result the read fails. */
  lemma GetReturnsLastResult(s: seq<Customer>, naw: Naw, klantId: Option<string>)
    requires Resolve(s, naw, klantId).Chosen?
    ensures var items := Filter(s, Resolve(s, naw, klantId).query, true);
      GetCustomer(s, naw, klantId) == if items == [] then Unbound else Ok(items[|items| - 1])
  {
    var q := Resolve(s, naw, klantId).query;
    match LastIndex(s, q)
    case None =>
      NoMatchKeepsAll(s, q);
    case Some(i) =>
      LastIndexIsLastResult(s, q, i);
  }

  /** Two customers with the same triple and distinct ids everywhere: without
      an id the read is refused as ambiguous, with the id of either one it
      returns that customer. */
  lemma DuplicateResolvedById(s: seq<Customer>, naw: Naw, a: nat, b: nat)
    requires a < b < |s| && NawOf(s[a]) == naw && NawOf(s[b]) == naw
    requires forall i, j :: 0 <= i < j < |s| ==> s[i].id != s[j].id
    ensures GetCustomer(s, naw, None) == Refused(AmbiguousMessage)
    ensures GetCustomer(s, naw, Some(s[a].id)) == Ok(s[a])
    ensures GetCustomer(s, naw, Some(s[b].id)) == Ok(s[b])
  {
    assert Duplicated(s, naw);
    assert IsTarget(s, naw, Some(s[a].id), a);
    assert IsTarget(s, naw, Some(s[b].id), b);
  }

  /** The coupon entry a visit adds. */
  function Entry(winkelnaam: string, datum: string, tagId: nat): (e: Coupon)
    ensures e.Locatie == winkelnaam && e.datum == datum
    ensures IsDecimal(e.coupon) && StringToNat(e.coupon) == tagId
  {
    Coupon(winkelnaam, datum, NatToString(tagId))
  }

  /** Record `i` with one more coupon entry, written back whole, answered
      with the code. */
  function AppendAt(s: seq<Customer>, i: nat, winkelnaam: string, datum: string, tagId: nat): (r: Outcome<nat>)
    requires i < |s|
    ensures SameIdentity(s, r.store)
  {
    var klant := s[i].(coupon := s[i].coupon + [Entry(winkelnaam, datum, tagId)]);
    Outcome(Ok(tagId), s[i := klant])
  }

  /** `add_visit`: the time stamp and the drawn code are inputs. The target
      gets one entry appended and is written back whole; the answer is the
      code. */
  function AddVisit(
    s: seq<Customer>, naw: Naw, klantId: Option<string>,
    winkelnaam: string, datum: string, tagId: nat): (r: Outcome<nat>)
    requires MinCode <= tagId <= MaxCode
    ensures SameIdentity(s, r.store)
    ensures NoneMatch(s, ByNaw(naw)) ==> r == Outcome(Refused(NotFoundMessage), s)
    ensures Duplicated(s, naw) && klantId.None? ==> r == Outcome(Refused(AmbiguousMessage), s)
    ensures Crashes(s, naw, klantId) ==> r == Outcome(Unbound, s)
    ensures r.reply.Ok? ==> MinCode <= r.reply.value <= MaxCode
    ensures forall i: nat :: IsTarget(s, naw, klantId, i) ==>
      && r.reply == Ok(tagId)
      && r.store == s[i := s[i].(coupon := s[i].coupon + [Entry(winkelnaam, datum, tagId)])]
  {
    match Locate(s, naw, klantId)
    case Refusal(m) => Outcome(Refused(m), s)
    case NoResult => Outcome(Unbound, s)
    case At(i) => AppendAt(s, i, winkelnaam, datum, tagId)
  }

  /** The redemption loop on the coupons of record `i`, written back whole,
      with the answer it leads to. */
  function RedeemAt(s: seq<Customer>, i: nat, code: string): (r: Outcome<string>)
    requires i < |s|
    ensures SameIdentity(s, r.store)
    ensures r.reply == Ok(if Carries(s[i].coupon, code) then CouponUsedMessage else CouponMissingMessage)
    ensures !Carries(s[i].coupon, code) ==> r.store == s
  {
    var redeemed := Redeem(s[i].coupon, code);
    var message := if redeemed.1 then CouponUsedMessage else CouponMissingMessage;
    Outcome(Ok(message), s[i := s[i].(coupon := redeemed.0)])
  }

  /** `use_coupon`: the redemption loop runs on the target's coupon list,
      the record is written back whole (changed or not), and the answer
      says whether the code was met. */
  function UseCoupon(s: seq<Customer>, naw: Naw, klantId: Option<string>, code: string): (r: Outcome<string>)
    ensures SameIdentity(s, r.store)
    ensures NoneMatch(s, ByNaw(naw)) ==> r == Outcome(Refused(NotFoundMessage), s)
    ensures Duplicated(s, naw) && klantId.None? ==> r == Outcome(Refused(AmbiguousMessage), s)
    ensures Crashes(s, naw, klantId) ==> r == Outcome(Unbound, s)
    ensures forall i: nat :: IsTarget(s, naw, klantId, i) ==>
      && r.store == s[i := s[i].(coupon := Redeem(s[i].coupon, code).0)]
      && r.reply == Ok(if Carries(s[i].coupon, code) then CouponUsedMessage else CouponMissingMessage)
      && (!Carries(s[i].coupon, code) ==> r.store == s)
  {
    match Locate(s, naw, klantId)
    case Refusal(m) => Outcome(Refused(m), s)
    case NoResult => Outcome(Unbound, s)
    case At(i) => RedeemAt(s, i, code)
  }

  /** On the target, redemption keeps the order of the remaining coupons
      and removes a code carried once exactly. */
  lemma UseCouponSingle(s: seq<Customer>, naw: Naw, klantId: Option<string>, code: string, i: nat, k: nat)
    requires IsTarget(s, naw, klantId, i)
    requires k < |s[i].coupon| && s[i].coupon[k].coupon == code
    requires forall j :: 0 <= j < |s[i].coupon| && j != k ==> s[i].coupon[j].coupon != code
    ensures var r := UseCoupon(s, naw, klantId, code);
      && r.reply == Ok(CouponUsedMessage)
      && r.store[i].coupon == s[i].coupon[..k] + s[i].coupon[k + 1..]
  {
    RedeemSingle(s[i].coupon, code, k);
  }

  /** A visit followed by redeeming the code it issued, when the target held
      no coupon with that code, puts the store back as it was. */
  lemma VisitThenRedeem(
    s: seq<Customer>, naw: Naw, klantId: Option<string>,
    winkelnaam: string, datum: string, tagId: nat, i: nat)
    requires MinCode <= tagId <= MaxCode
    requires IsTarget(s, naw, klantId, i)
    requires forall k :: 0 <= k < |s[i].coupon| ==> s[i].coupon[k].coupon != NatToString(tagId)
    ensures var v := AddVisit(s, naw, klantId, winkelnaam, datum, tagId);
      && v.reply == Ok(tagId)
      && UseCoupon(v.store, naw, klantId, NatToString(tagId)) == Outcome(Ok(CouponUsedMessage), s)
  {
    var v := AddVisit(s, naw, klantId, winkelnaam, datum, tagId);
    var before := s[i].coupon;
    var l := before + [Entry(winkelnaam, datum, tagId)];
    assert v.store[i].coupon == l;
    SameIdentityKeepsTarget(s, v.store, naw, klantId, i);
    RedeemSingle(l, NatToString(tagId), |before|);
    assert l[..|before|] + l[|before| + 1..] == before;
    assert v.store[i := v.store[i].(coupon := before)] == s;
  }

  /** Coupon changes do not move the target: the triple and ids decide it. */
  lemma SameIdentityKeepsTarget(s: seq<Customer>, t: seq<Customer>, naw: Naw, klantId: Option<string>, i: nat)
    requires SameIdentity(s, t)
    requires IsTarget(s, naw, klantId, i)
    ensures IsTarget(t, naw, klantId, i)
  {
  }

  /** Visits and redemptions keep every id unique inside its partition. */
  lemma VisitsKeepDistinctKeys(
    s: seq<Customer>, naw: Naw, klantId: Option<string>,
    winkelnaam: string, datum: string, tagId: nat, code: string)
    requires MinCode <= tagId <= MaxCode
    requires DistinctKeys(s)
    ensures DistinctKeys(AddVisit(s, naw, klantId, winkelnaam, datum, tagId).store)
    ensures DistinctKeys(UseCoupon(s, naw, klantId, code).store)
  {
  }

  /** The walk-through of one customer's life: created in an empty store,
      a visit to "Winkel A" issues code C, redeeming C empties the coupon
      list again. */
  lemma Scenario(datum: string, code: nat)
    requires MinCode <= code <= MaxCode
    ensures
      var naw := Naw("Ralph van Leeuwen", "3437JN", "40");
      var s0 := Lifecycle.NewCustomer([], naw);
      var v := AddVisit(s0, naw, None, "Winkel A", datum, code);
      var u := UseCoupon(v.store, naw, None, NatToString(code));
      && s0 == [Customer("1", "Ralph van Leeuwen", "3437JN", "40", [])]
      && v.reply == Ok(code)
      && v.store == [Customer("1", "Ralph van Leeuwen", "3437JN", "40", [Coupon("Winkel A", datum, NatToString(code))])]
      && u == Outcome(Ok(CouponUsedMessage), s0)
  {
    var naw := Naw("Ralph van Leeuwen", "3437JN", "40");
    var s0 := Lifecycle.NewCustomer([], naw);
    Lifecycle.CreateAppends([], naw);
    assert NatToString(1) == "1";
    assert OnlyMatch(s0, naw, 0);
    VisitThenRedeem(s0, naw, None, "Winkel A", datum, code, 0);
  }
}
