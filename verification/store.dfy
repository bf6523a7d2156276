/** The customer container, held in memory: a sequence of customer documents
    in store order. A query is a filter over that sequence that keeps the
    order, which is how the operations read the container. */
module Store {
  import opened Subsequence

  datatype Option<T> = None | Some(value: T)

  /** One coupon entry of a customer document: the shop where it was earned
      (`Locatie`), the time of the visit (`datum`) and its code (`coupon`). */
  datatype Coupon = Coupon(Locatie: string, datum: string, coupon: string)

  /** A customer document as persisted. `klantNaam` is also the partition
      key of the container. */
  datatype Customer = Customer(
    id: string,
    klantNaam: string,
    postCode: string,
    huisNummer: string,
    coupon: seq<Coupon>)

  /** Name, postcode and house number: the natural, non-unique identity of
      a customer. */
  datatype Naw = Naw(klantNaam: string, postCode: string, huisNummer: string)

  function NawOf(c: Customer): Naw {
    Naw(c.klantNaam, c.postCode, c.huisNummer)
  }

  /** The two queries the operations issue: by the exact name, postcode and
      house number, or by id alone. */
  datatype Query = ByNaw(naw: Naw) | ById(id: string)

  /** The WHERE clause of a query. */
  predicate Matches(q: Query, c: Customer)
  {
    match q
    case ByNaw(n) => NawOf(c) == n
    case ById(x) => c.id == x
  }

  /** No record of the store is returned by the query. */
  predicate NoneMatch(s: seq<Customer>, q: Query) {
    forall j :: 0 <= j < |s| ==> !Matches(q, s[j])
  }

  /** Two documents occupy the same slot of the container when they have the
      same id in the same partition (the name). */
  predicate SameSlot(a: Customer, b: Customer) {
    a.id == b.id && a.klantNaam == b.klantNaam
  }

  /** No record of the store occupies the slot of `c`. */
  predicate SlotFree(s: seq<Customer>, c: Customer) {
    forall j :: 0 <= j < |s| ==> !SameSlot(s[j], c)
  }

  /** The records whose match against `q` equals `keep`, in store order:
      with `keep` the query's result, without it what a delete leaves. */
  function Filter(s: seq<Customer>, q: Query, keep: bool): (r: seq<Customer>)
    ensures |r| <= |s|
    ensures forall c :: c in r ==> c in s && Matches(q, c) == keep
  {
    if s == [] then []
    else (if Matches(q, s[0]) == keep then [s[0]] else []) + Filter(s[1..], q, keep)
  }

  /** `SELECT VALUE COUNT(1)` for the query: how many records it returns. */
  function Count(s: seq<Customer>, q: Query): (n: nat)
    ensures n == |Filter(s, q, true)|
  {
    if s == [] then 0
    else (if Matches(q, s[0]) then 1 else 0) + Count(s[1..], q)
  }

  /** The position of the last record the query returns: the record a
      `for item in items: klant = item` loop is left holding. */
  function LastIndex(s: seq<Customer>, q: Query): (r: Option<nat>)
    ensures r.None? <==> NoneMatch(s, q)
    ensures r.Some? ==>
      && r.value < |s|
      && Matches(q, s[r.value])
      && forall j :: r.value < j < |s| ==> !Matches(q, s[j])
    decreases |s|
  {
    if s == [] then None
    else if Matches(q, s[|s| - 1]) then Some(|s| - 1)
    else LastIndex(s[..|s| - 1], q)
  }

  /** No two records share an id inside one partition, which is what the
      container enforces for its documents. */
  predicate DistinctKeys(s: seq<Customer>) {
    forall i, j :: 0 <= i < j < |s| ==> !SameSlot(s[i], s[j])
  }

  /** Two stores that hold the same records up to their coupon lists. */
  predicate SameIdentity(s: seq<Customer>, t: seq<Customer>) {
    && |s| == |t|
    && forall i :: 0 <= i < |s| ==> s[i].id == t[i].id && NawOf(s[i]) == NawOf(t[i])
  }

  lemma {:induction false} CountZeroIff(s: seq<Customer>, q: Query)
    ensures Count(s, q) == 0 <==> NoneMatch(s, q)
    decreases |s|
  {
    if s != [] {
      CountZeroIff(s[1..], q);
      if Count(s, q) == 0 {
        forall j | 0 <= j < |s|
          ensures !Matches(q, s[j])
        {
          if j > 0 {
            assert s[j] == s[1..][j - 1];
          }
        }
      } else {
        assert forall j :: 0 <= j < |s| - 1 ==> s[1..][j] == s[j + 1];
      }
    }
  }

  /** Two matching positions make a count of at least two. */
  lemma {:induction false} CountTwoMatches(s: seq<Customer>, q: Query, i: nat, j: nat)
    requires i < j < |s| && Matches(q, s[i]) && Matches(q, s[j])
    ensures Count(s, q) >= 2
    decreases |s|
  {
    var t := s[1..];
    assert Matches(q, t[j - 1]);
    if i == 0 {
      CountZeroIff(t, q);
    } else {
      assert Matches(q, t[i - 1]);
      CountTwoMatches(t, q, i - 1, j - 1);
    }
  }

  /** A count of at least two is witnessed by two matching positions. */
  lemma {:induction false} CountManyWitness(s: seq<Customer>, q: Query) returns (i: nat, j: nat)
    requires Count(s, q) >= 2
    ensures i < j < |s| && Matches(q, s[i]) && Matches(q, s[j])
    decreases |s|
  {
    var t := s[1..];
    if Matches(q, s[0]) {
      CountZeroIff(t, q);
      var j' :| 0 <= j' < |t| && Matches(q, t[j']);
      i, j := 0, j' + 1;
    } else {
      var i', j' := CountManyWitness(t, q);
      i, j := i' + 1, j' + 1;
    }
  }

  lemma CountManyIff(s: seq<Customer>, q: Query)
    ensures Count(s, q) >= 2 <==>
      exists i, j :: 0 <= i < j < |s| && Matches(q, s[i]) && Matches(q, s[j])
  {
    if Count(s, q) >= 2 {
      var i, j := CountManyWitness(s, q);
    }
    if exists i, j :: 0 <= i < j < |s| && Matches(q, s[i]) && Matches(q, s[j]) {
      var i, j :| 0 <= i < j < |s| && Matches(q, s[i]) && Matches(q, s[j]);
      CountTwoMatches(s, q, i, j);
    }
  }

  /** The result of a query and the records a delete by that query leaves
      together make up the store, record for record. */
  lemma {:induction false} FilterPartition(s: seq<Customer>, q: Query)
    ensures multiset(s) == multiset(Filter(s, q, true)) + multiset(Filter(s, q, false))
    decreases |s|
  {
    if s != [] {
      var t := s[1..];
      FilterPartition(t, q);
      var yes, no := Filter(t, q, true), Filter(t, q, false);
      assert multiset(s) == multiset{s[0]} + multiset(t) by {
        assert s == [s[0]] + t;
      }
      if Matches(q, s[0]) {
        assert Filter(s, q, false) == no;
        assert multiset(Filter(s, q, true)) == multiset{s[0]} + multiset(yes) by {
          assert Filter(s, q, true) == [s[0]] + yes;
        }
      } else {
        assert Filter(s, q, true) == yes;
        assert multiset(Filter(s, q, false)) == multiset{s[0]} + multiset(no) by {
          assert Filter(s, q, false) == [s[0]] + no;
        }
      }
    }
  }

  /** Filtering keeps the store order of what it keeps. */
  lemma {:induction false} FilterIsSubseq(s: seq<Customer>, q: Query, keep: bool)
    ensures IsSubseq(Filter(s, q, keep), s)
    decreases |s|
  {
    if s != [] {
      var t := s[1..];
      var r := Filter(s, q, keep);
      FilterIsSubseq(t, q, keep);
      if Matches(q, s[0]) == keep {
        assert r == [s[0]] + Filter(t, q, keep);
        assert r[1..] == Filter(t, q, keep);
      } else {
        assert r == Filter(t, q, keep);
      }
    }
  }

  /** A query whose only match sits at position `k` is dropped by the filter
      that removes matches, which then leaves everything else in order. */
  lemma {:induction false} FilterDropsSingle(s: seq<Customer>, q: Query, k: nat)
    requires k < |s| && Matches(q, s[k])
    requires forall j :: 0 <= j < |s| && j != k ==> !Matches(q, s[j])
    ensures Filter(s, q, false) == s[..k] + s[k + 1..]
    decreases |s|
  {
    var t := s[1..];
    if k == 0 {
      FilterDropsHead(s, q);
    } else {
      assert forall j :: 0 <= j < |t| && j != k - 1 ==> !Matches(q, t[j]) by {
        forall j | 0 <= j < |t| && j != k - 1
          ensures !Matches(q, t[j])
        {
          assert t[j] == s[j + 1];
        }
      }
      assert Matches(q, t[k - 1]);
      FilterDropsSingle(t, q, k - 1);
      assert Filter(s, q, false) == [s[0]] + Filter(t, q, false);
      DropOneCons(s, k);
    }
  }

  lemma DropOneCons<T>(s: seq<T>, k: nat)
    requires 0 < k < |s|
    ensures [s[0]] + (s[1..][..k - 1] + s[1..][k..]) == s[..k] + s[k + 1..]
  {
  }

  lemma FilterDropsHead(s: seq<Customer>, q: Query)
    requires |s| > 0 && Matches(q, s[0])
    requires forall j :: 0 < j < |s| ==> !Matches(q, s[j])
    ensures Filter(s, q, false) == s[1..]
  {
    var t := s[1..];
    assert forall j :: 0 <= j < |t| ==> !Matches(q, t[j]) by {
      forall j | 0 <= j < |t|
        ensures !Matches(q, t[j])
      {
        assert t[j] == s[j + 1];
      }
    }
    NoMatchKeepsAll(t, q);
  }

  /** A query that matches nothing returns nothing, and a delete by it
      keeps the whole store. */
  lemma {:induction false} NoMatchKeepsAll(s: seq<Customer>, q: Query)
    requires NoneMatch(s, q)
    ensures Filter(s, q, false) == s
    ensures Filter(s, q, true) == []
    decreases |s|
  {
    if s != [] {
      NoMatchKeepsAll(s[1..], q);
      assert s == [s[0]] + s[1..];
    }
  }

  /** The element at `LastIndex` is the last element of the query result. */
  lemma {:induction false} LastIndexIsLastResult(s: seq<Customer>, q: Query, i: nat)
    requires i < |s| && Matches(q, s[i])
    requires forall j :: i < j < |s| ==> !Matches(q, s[j])
    ensures var r := Filter(s, q, true); |r| > 0 && r[|r| - 1] == s[i]
    decreases |s|
  {
    if i == 0 {
      NoMatchKeepsAll(s[1..], q);
    } else {
      LastIndexIsLastResult(s[1..], q, i - 1);
    }
  }

  /** Filtering keeps the container's id-per-partition uniqueness. */
  lemma {:induction false} FilterKeepsDistinctKeys(s: seq<Customer>, q: Query, keep: bool)
    requires DistinctKeys(s)
    ensures DistinctKeys(Filter(s, q, keep))
    decreases |s|
  {
    if s != [] {
      var t := s[1..];
      assert DistinctKeys(t) by {
        forall i, j | 0 <= i < j < |t|
          ensures !SameSlot(t[i], t[j])
        {
          assert t[i] == s[i + 1] && t[j] == s[j + 1];
        }
      }
      FilterKeepsDistinctKeys(t, q, keep);
      var ft := Filter(t, q, keep);
      if Matches(q, s[0]) == keep {
        var r := Filter(s, q, keep);
        assert r == [s[0]] + ft;
        forall i, j | 0 <= i < j < |r|
          ensures !SameSlot(r[i], r[j])
        {
          if i == 0 {
            assert r[j] == ft[j - 1];
            assert ft[j - 1] in t;
            var m :| 0 <= m < |t| && t[m] == ft[j - 1];
            assert s[m + 1] == r[j];
          } else {
            assert r[i] == ft[i - 1] && r[j] == ft[j - 1];
          }
        }
      }
    }
  }
}
