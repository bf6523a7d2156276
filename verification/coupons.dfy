/** Coupon redemption on one customer's coupon list. The loop it models
    walks the list by position while removing from the same list, so after
    every removal the entry that slides into the current position is never
    looked at. */
module Coupons {
  import opened Subsequence
  import opened Store

  /** Position of the first entry equal to `x`. */
  function IndexOf(l: seq<Coupon>, x: Coupon): (k: nat)
    requires x in l
    ensures k < |l| && l[k] == x
    ensures forall j :: 0 <= j < k ==> l[j] != x
  {
    if l[0] == x then 0 else 1 + IndexOf(l[1..], x)
  }

  /** `list.remove(x)`: drops the first entry equal to `x` (equal in all
      three fields), which need not be the entry at the loop's position. */
  function RemoveFirst(l: seq<Coupon>, x: Coupon): (r: seq<Coupon>)
    requires x in l
    ensures |r| == |l| - 1
  {
    var k := IndexOf(l, x);
    l[..k] + l[k + 1..]
  }

  /** `list.remove(x)` takes out one copy of `x` and nothing else, leaving
      the entries before the first copy where they were. */
  lemma RemoveFirstTakesOneCopy(l: seq<Coupon>, x: Coupon)
    requires x in l
    ensures multiset(RemoveFirst(l, x)) == multiset(l) - multiset{x}
    ensures RemoveFirst(l, x)[..IndexOf(l, x)] == l[..IndexOf(l, x)]
    ensures forall j :: IndexOf(l, x) <= j < |l| - 1 ==> RemoveFirst(l, x)[j] == l[j + 1]
  {
    var k := IndexOf(l, x);
    var r := RemoveFirst(l, x);
    assert r == l[..k] + l[k + 1..];
    assert l == l[..k] + ([x] + l[k + 1..]);
    assert multiset(l) == multiset(l[..k]) + multiset{x} + multiset(l[k + 1..]);
    assert multiset(r) == multiset(l[..k]) + multiset(l[k + 1..]);
    forall j | k <= j < |l| - 1
      ensures r[j] == l[j + 1]
    {
      assert r[j] == l[k + 1..][j - k];
    }
  }

  /** The redemption loop from position `i` on: the list it leaves and
      whether any entry with the code was met. */
  function RedeemFrom(l: seq<Coupon>, i: nat, code: string): (r: (seq<Coupon>, bool))
    ensures |r.0| <= |l|
    ensures r.1 <==> exists j :: i <= j < |l| && l[j].coupon == code
    ensures !r.1 ==> r.0 == l
    decreases |l| - i
  {
    if i >= |l| then (l, false)
    else if l[i].coupon == code then
      var rest := RedeemFrom(RemoveFirst(l, l[i]), i + 1, code);
      (rest.0, true)
    else
      RedeemFrom(l, i + 1, code)
  }

  /** Some entry of the list has the code. */
  predicate Carries(l: seq<Coupon>, code: string) {
    exists k :: 0 <= k < |l| && l[k].coupon == code
  }

  /** The whole loop, started at the head of the list. */
  function Redeem(l: seq<Coupon>, code: string): (r: (seq<Coupon>, bool))
    ensures r.1 <==> Carries(l, code)
    ensures !r.1 ==> r.0 == l
    ensures |r.0| <= |l|
  {
    RedeemFrom(l, 0, code)
  }

  /** Whatever the codes, redemption only deletes entries and keeps the
      order of the rest. */
  lemma {:induction false} RedeemFromIsSubseq(l: seq<Coupon>, i: nat, code: string)
    ensures IsSubseq(RedeemFrom(l, i, code).0, l)
    decreases |l| - i
  {
    if i >= |l| {
      SubseqRefl(l);
    } else if l[i].coupon == code {
      var m := RemoveFirst(l, l[i]);
      RedeemFromIsSubseq(m, i + 1, code);
      DropOneIsSubseq(l, IndexOf(l, l[i]));
      SubseqTrans(RedeemFrom(m, i + 1, code).0, m, l);
    } else {
      RedeemFromIsSubseq(l, i + 1, code);
    }
  }

  lemma RedeemIsSubseq(l: seq<Coupon>, code: string)
    ensures IsSubseq(Redeem(l, code).0, l)
    ensures |Redeem(l, code).0| <= |l|
  {
    RedeemFromIsSubseq(l, 0, code);
  }

  /** A code carried by exactly one entry: that entry goes, the others stay
      in their order, and the redemption is reported. */
  lemma RedeemSingle(l: seq<Coupon>, code: string, k: nat)
    requires k < |l| && l[k].coupon == code
    requires forall j :: 0 <= j < |l| && j != k ==> l[j].coupon != code
    ensures Redeem(l, code) == (l[..k] + l[k + 1..], true)
  {
    RedeemSkipsTo(l, 0, k, code);
    assert IndexOf(l, l[k]) == k;
    var m := RemoveFirst(l, l[k]);
    assert forall j :: k + 1 <= j < |m| ==> m[j] == l[j + 1];
  }

  /** Positions before the first match are passed over without effect. */
  lemma {:induction false} RedeemSkipsTo(l: seq<Coupon>, i: nat, k: nat, code: string)
    requires i <= k < |l|
    requires forall j :: i <= j < k ==> l[j].coupon != code
    ensures RedeemFrom(l, i, code) == RedeemFrom(l, k, code)
    decreases k - i
  {
    if i < k {
      RedeemSkipsTo(l, i + 1, k, code);
    }
  }

  /** No entry occurs twice (as a whole: place, date and code). */
  predicate Distinct(l: seq<Coupon>) {
    forall j, k :: 0 <= j < k < |l| ==> l[j] != l[k]
  }

  /** What the loop should leave of a list without repeated entries, read
      left to right: an entry with the code is removed, except the entry
      right behind a removed one, which slides into the vacated position and
      is stepped over. `skip` says that the previous entry was removed. */
  function Survivors(l: seq<Coupon>, code: string, skip: bool): (r: seq<Coupon>)
    ensures IsSubseq(r, l)
    decreases |l|
  {
    if l == [] then []
    else if skip then [l[0]] + Survivors(l[1..], code, false)
    else if l[0].coupon == code then
      var rest := Survivors(l[1..], code, true);
      DropOneIsSubseq(l, 0);
      assert l[..0] + l[1..] == l[1..];
      SubseqTrans(rest, l[1..], l);
      rest
    else [l[0]] + Survivors(l[1..], code, false)
  }

  /** Dropping one entry from a list without repeats leaves none. */
  lemma DropKeepsDistinct(l: seq<Coupon>, i: nat)
    requires Distinct(l) && i < |l|
    ensures Distinct(l[..i] + l[i + 1..])
  {
    var m := l[..i] + l[i + 1..];
    forall j, k | 0 <= j < k < |m|
      ensures m[j] != m[k]
    {
      var j' := if j < i then j else j + 1;
      var k' := if k < i then k else k + 1;
      assert m[j] == l[j'] && m[k] == l[k'];
    }
  }

  /** On a list without repeated entries, the entry `list.remove` drops is
      the one at the loop's position, and what remains has no repeats. */
  lemma RemoveDistinct(l: seq<Coupon>, i: nat)
    requires Distinct(l) && i < |l|
    ensures IndexOf(l, l[i]) == i
    ensures RemoveFirst(l, l[i]) == l[..i] + l[i + 1..]
    ensures Distinct(RemoveFirst(l, l[i]))
  {
    assert IndexOf(l, l[i]) == i;
    DropKeepsDistinct(l, i);
  }

  /** `Survivors` at an entry with the code: the entry goes and the next
      one stays. */
  lemma SurvivorsAtMatch(l: seq<Coupon>, i: nat, code: string)
    requires i + 1 < |l| && l[i].coupon == code
    ensures Survivors(l[i..], code, false) == [l[i + 1]] + Survivors(l[i + 2..], code, false)
  {
    assert l[i..][1..] == l[i + 1..];
    assert l[i + 1..][1..] == l[i + 2..];
  }

  /** After `list.remove` of the entry at `i` the loop resumes at `i + 1`:
      what `Survivors` leaves of the shortened list from there is what it
      leaves of the original list from `i`. */
  lemma SurvivorsAfterRemove(l: seq<Coupon>, m: seq<Coupon>, i: nat, code: string)
    requires i + 1 < |l| && l[i].coupon == code && m == l[..i] + l[i + 1..]
    ensures m[..i + 1] + Survivors(m[i + 1..], code, false) == l[..i] + Survivors(l[i..], code, false)
  {
    var front, rest := l[..i], Survivors(l[i + 2..], code, false);
    assert m[..i + 1] == front + [l[i + 1]];
    assert m[i + 1..] == l[i + 2..];
    SurvivorsAtMatch(l, i, code);
    assert (front + [l[i + 1]]) + rest == front + ([l[i + 1]] + rest);
  }

  /** On a list without repeated entries the loop from position `i` keeps
      the entries before `i` and leaves `Survivors` of the rest. */
  lemma {:induction false} RedeemFromDistinct(l: seq<Coupon>, i: nat, code: string)
    requires Distinct(l) && i <= |l|
    ensures RedeemFrom(l, i, code).0 == l[..i] + Survivors(l[i..], code, false)
    decreases |l| - i
  {
    if i == |l| {
      assert l[..i] == l && l[i..] == [];
    } else if l[i].coupon == code {
      RemoveDistinct(l, i);
      if i + 1 < |l| {
        var m := RemoveFirst(l, l[i]);
        RedeemFromDistinct(m, i + 1, code);
        SurvivorsAfterRemove(l, m, i, code);
      } else {
        assert RemoveFirst(l, l[i]) == l[..i];
        assert l[i..] == [l[i]];
      }
    } else {
      RedeemFromDistinct(l, i + 1, code);
      assert l[i..][1..] == l[i + 1..];
      assert l[..i + 1] == l[..i] + [l[i]];
    }
  }

  /** The whole loop on a list without repeated entries: every entry with the
      code is removed except those right behind a removed one. */
  lemma RedeemDistinct(l: seq<Coupon>, code: string)
    requires Distinct(l)
    ensures Redeem(l, code).0 == Survivors(l, code, false)
  {
    RedeemFromDistinct(l, 0, code);
    assert l[..0] == [] && l[0..] == l;
  }

  /** Two adjacent entries with the same code: the loop removes the first
      and then steps over the second, which stays. */
  lemma RedeemSkipsAdjacentTwin(a: Coupon, b: Coupon)
    requires a.coupon == b.coupon
    ensures Redeem([a, b], a.coupon) == ([b], true)
  {
    assert RemoveFirst([a, b], a) == [b];
  }

  /** Two entries with the same code that are not adjacent are both
      removed: the entry that slides into the vacated position has another
      code, so the second twin is still reached. */
  lemma RedeemRemovesSeparatedTwins(a: Coupon, x: Coupon, b: Coupon)
    requires a.coupon == b.coupon && x.coupon != a.coupon
    ensures Redeem([a, x, b], a.coupon) == ([x], true)
  {
    var c := a.coupon;
    assert RemoveFirst([a, x, b], a) == [x, b];
    assert RemoveFirst([x, b], b) == [x];
    assert RedeemFrom([x], 2, c) == ([x], false);
    assert RedeemFrom([x, b], 1, c) == ([x], true);
  }

  /** `list.remove` goes by value: when an identical entry was stepped over
      earlier, a later match removes that earlier copy instead of itself. */
  lemma RedeemRemovesEarlierCopy(a: Coupon, b: Coupon)
    requires a.coupon != b.coupon
    ensures Redeem([a, a, b, a], a.coupon) == ([b, a], true)
  {
    var c := a.coupon;
    assert RemoveFirst([a, a, b, a], a) == [a, b, a];
    assert RemoveFirst([a, b, a], a) == [b, a];
    assert RedeemFrom([b, a], 3, c) == ([b, a], false);
    assert RedeemFrom([a, b, a], 2, c) == ([b, a], true);
    assert RedeemFrom([a, b, a], 1, c) == ([b, a], true);
  }
}
