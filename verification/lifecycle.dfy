/** Creating and deleting customers: the id taken from the record count, the
    upsert that writes a new record, and the delete that removes whatever the
    resolved query returns. */
module Lifecycle {
  import opened Decimal
  import opened Subsequence
  import opened Store
  import opened Resolver

  const DeletedMessage := "Items verwijderd"

  /** `str(get_count() + 1)`: the decimal rendering of the number of records
      in the whole container plus one. */
  function NextId(s: seq<Customer>): (id: string)
    ensures IsDecimal(id)
    ensures StringToNat(id) == |s| + 1
  {
    NatToString(|s| + 1)
  }

  /** The first position whose record occupies the slot of `c`. */
  function FindSlot(s: seq<Customer>, c: Customer): (r: Option<nat>)
    ensures r.None? <==> SlotFree(s, c)
    ensures r.Some? ==>
      && r.value < |s|
      && SameSlot(s[r.value], c)
      && forall j :: 0 <= j < r.value ==> !SameSlot(s[j], c)
    decreases |s|
  {
    if s == [] then None
    else if SameSlot(s[0], c) then Some(0)
    else match FindSlot(s[1..], c)
      case None => None
      case Some(k) => Some(k + 1)
  }

  /** `upsert_item`: a record in the slot of `c` is replaced in place,
      otherwise `c` is added at the end. */
  function Upsert(s: seq<Customer>, c: Customer): (r: seq<Customer>)
    ensures c in r
    ensures SlotFree(s, c) ==> r == s + [c]
    ensures !SlotFree(s, c) ==>
      && |r| == |s|
      && forall j :: 0 <= j < |s| && !SameSlot(s[j], c) ==> r[j] == s[j]
  {
    match FindSlot(s, c)
    case None => s + [c]
    case Some(k) => assert s[k := c][k] == c; s[k := c]
  }

  /** The record `new_customer` writes: the next id, the given triple and
      no coupons. */
  function Fresh(s: seq<Customer>, naw: Naw): (c: Customer)
    ensures IsDecimal(c.id) && StringToNat(c.id) == |s| + 1
    ensures NawOf(c) == naw
    ensures c.coupon == []
  {
    Customer(NextId(s), naw.klantNaam, naw.postCode, naw.huisNummer, [])
  }

  /** `new_customer`: no duplicate check; the record is upserted with id
      count + 1. */
  function NewCustomer(s: seq<Customer>, naw: Naw): (r: seq<Customer>)
    ensures Fresh(s, naw) in r
    ensures |s| <= |r| <= |s| + 1
    ensures forall j :: 0 <= j < |s| && !SameSlot(s[j], Fresh(s, naw))
              ==> r[j] == s[j]
    ensures |r| == |s| + 1 <==> SlotFree(s, Fresh(s, naw))
  {
    Upsert(s, Fresh(s, naw))
  }

  /** New customers created one after another, in order, from an empty
      container. */
  function CreateAll(ts: seq<Naw>): seq<Customer>
    decreases |ts|
  {
    if ts == [] then []
    else NewCustomer(CreateAll(ts[..|ts| - 1]), ts[|ts| - 1])
  }

  /** One creation on a container whose ids are "1" to "N" in order
      appends the record with id "N+1". */
  lemma CreateAppends(p: seq<Customer>, naw: Naw)
    requires forall j :: 0 <= j < |p| ==> p[j].id == NatToString(j + 1)
    ensures NewCustomer(p, naw) == p + [Customer(NatToString(|p| + 1), naw.klantNaam, naw.postCode, naw.huisNummer, [])]
  {
    var c := Fresh(p, naw);
    forall j | 0 <= j < |p|
      ensures !SameSlot(p[j], c)
    {
      assert StringToNat(p[j].id) == j + 1;
    }
  }

  /** The inductive step of `SequentialIds`: creating the last customer on
      a container holding the earlier ones with ids "1" to "N-1". */
  lemma CreateLast(p: seq<Customer>, ts: seq<Naw>)
    requires ts != [] && |p| == |ts| - 1
    requires forall k :: 0 <= k < |p| ==>
      p[k] == Customer(NatToString(k + 1), ts[k].klantNaam, ts[k].postCode, ts[k].huisNummer, [])
    ensures var r := NewCustomer(p, ts[|ts| - 1]);
      && |r| == |ts|
      && forall k :: 0 <= k < |ts| ==>
        r[k] == Customer(NatToString(k + 1), ts[k].klantNaam, ts[k].postCode, ts[k].huisNummer, [])
  {
    CreateAppends(p, ts[|ts| - 1]);
  }

  /** Created one after another with nothing deleted in between, customers
      get the ids "1" to "N" in creation order. */
  lemma {:induction false} SequentialIds(ts: seq<Naw>)
    ensures |CreateAll(ts)| == |ts|
    ensures forall k :: 0 <= k < |ts| ==>
      CreateAll(ts)[k] == Customer(NatToString(k + 1), ts[k].klantNaam, ts[k].postCode, ts[k].huisNummer, [])
    decreases |ts|
  {
    if ts != [] {
      var init := ts[..|ts| - 1];
      SequentialIds(init);
      forall k | 0 <= k < |init|
        ensures init[k] == ts[k]
      {
      }
      CreateLast(CreateAll(init), ts);
    }
  }

  /** Creating a customer keeps every id unique inside its partition. */
  lemma NewCustomerKeepsDistinctKeys(s: seq<Customer>, naw: Naw)
    requires DistinctKeys(s)
    ensures DistinctKeys(NewCustomer(s, naw))
  {
  }

  /** `delete_customer`: the refusals leave the store alone; otherwise every
      record the chosen query returns is deleted, and the answer is the same
      whether that was one record or none. */
  function DeleteCustomer(s: seq<Customer>, naw: Naw, klantId: Option<string>): (r: Outcome<string>)
    ensures NoneMatch(s, ByNaw(naw)) ==> r == Outcome(Refused(NotFoundMessage), s)
    ensures Duplicated(s, naw) && klantId.None? ==> r == Outcome(Refused(AmbiguousMessage), s)
    ensures !NoneMatch(s, ByNaw(naw)) && !Duplicated(s, naw) ==>
      r == Outcome(Ok(DeletedMessage), Filter(s, ByNaw(naw), false))
    ensures Duplicated(s, naw) && klantId.Some? ==>
      r == Outcome(Ok(DeletedMessage), Filter(s, ById(klantId.value), false))
    ensures r.reply.Ok? ==> IsSubseq(r.store, s)
  {
    match Resolve(s, naw, klantId)
    case NotFound => Outcome(Refused(NotFoundMessage), s)
    case Ambiguous => Outcome(Refused(AmbiguousMessage), s)
    case Chosen(q) =>
      FilterIsSubseq(s, q, false);
      Outcome(Ok(DeletedMessage), Filter(s, q, false))
  }

  /** The records a successful delete removes are exactly the records its
      query returns, counted with multiplicity; none of the survivors
      matches that query. */
  lemma DeleteRemovesQueryResult(s: seq<Customer>, naw: Naw, klantId: Option<string>)
    requires Resolve(s, naw, klantId).Chosen?
    ensures var q := Resolve(s, naw, klantId).query;
      var after := DeleteCustomer(s, naw, klantId).store;
      && multiset(s) == multiset(Filter(s, q, true)) + multiset(after)
      && forall c :: c in after ==> !Matches(q, c)
  {
    FilterPartition(s, Resolve(s, naw, klantId).query);
  }

  /** Deleting the one customer with a triple removes exactly that record;
      afterwards the triple is not found. */
  lemma DeleteOnlyMatch(s: seq<Customer>, naw: Naw, klantId: Option<string>, k: nat)
    requires OnlyMatch(s, naw, k)
    ensures DeleteCustomer(s, naw, klantId) == Outcome(Ok(DeletedMessage), s[..k] + s[k + 1..])
    ensures Resolve(s[..k] + s[k + 1..], naw, klantId) == NotFound
  {
    assert !Duplicated(s, naw);
    FilterDropsSingle(s, ByNaw(naw), k);
    var t := s[..k] + s[k + 1..];
    forall j | 0 <= j < |t|
      ensures NawOf(t[j]) != naw
    {
      if j < k {
        assert t[j] == s[j];
      } else {
        assert t[j] == s[j + 1];
      }
    }
  }

  /** Delete keeps every id unique inside its partition. */
  lemma DeleteKeepsDistinctKeys(s: seq<Customer>, naw: Naw, klantId: Option<string>)
    requires DistinctKeys(s)
    ensures DistinctKeys(DeleteCustomer(s, naw, klantId).store)
  {
    match Resolve(s, naw, klantId)
    case NotFound =>
    case Ambiguous =>
    case Chosen(q) => FilterKeepsDistinctKeys(s, q, false);
  }

  /** Deleting the only holder of `x`, the first of two records, leaves the
      second. */
  lemma DeleteFirstOfTwo(a: Customer, b: Customer, x: Naw)
    requires NawOf(a) == x && NawOf(b) != x
    ensures DeleteCustomer([a, b], x, None).store == [b]
  {
    assert OnlyMatch([a, b], x, 0);
    DeleteOnlyMatch([a, b], x, None, 0);
    assert [a, b][..0] + [a, b][1..] == [b];
  }

  /** Ids are reused after a delete: with "1" and "2" in the container and
      "1" deleted, the next customer gets id "2" again. In the partition of
      the surviving "2" the upsert overwrites that customer, coupons and all. */
  lemma IdReuseOverwrites(x: Naw, y: Naw, z: Naw, coupons: seq<Coupon>)
    requires x != y && z.klantNaam == y.klantNaam
    ensures
      var a := Customer("1", x.klantNaam, x.postCode, x.huisNummer, []);
      var b := Customer("2", y.klantNaam, y.postCode, y.huisNummer, coupons);
      var afterDelete := DeleteCustomer([a, b], x, None).store;
      && afterDelete == [b]
      && NewCustomer(afterDelete, z) == [Customer("2", z.klantNaam, z.postCode, z.huisNummer, [])]
  {
    var a := Customer("1", x.klantNaam, x.postCode, x.huisNummer, []);
    var b := Customer("2", y.klantNaam, y.postCode, y.huisNummer, coupons);
    DeleteFirstOfTwo(a, b, x);
    assert NatToString(2) == "2";
  }

  /** In another partition the reused id sits beside the old one: two
      records with id "2". */
  lemma IdReuseDuplicates(x: Naw, y: Naw, z: Naw)
    requires x != y && z.klantNaam != y.klantNaam
    ensures
      var a := Customer("1", x.klantNaam, x.postCode, x.huisNummer, []);
      var b := Customer("2", y.klantNaam, y.postCode, y.huisNummer, []);
      var after := NewCustomer(DeleteCustomer([a, b], x, None).store, z);
      && |after| == 2
      && after[0].id == "2" && after[1].id == "2"
  {
    var a := Customer("1", x.klantNaam, x.postCode, x.huisNummer, []);
    var b := Customer("2", y.klantNaam, y.postCode, y.huisNummer, []);
    DeleteFirstOfTwo(a, b, x);
    assert NatToString(2) == "2";
    var c := Fresh([b], z);
    assert !SameSlot(b, c);
    assert NewCustomer([b], z) == [b, c];
  }
}
