# Loyalty customer and coupon records, modelled in Dafny

This project models the record logic of a small loyalty backend: customers
identified by name, postcode and house number (the NAW triple), coupons
issued on store visits, and their redemption. The document container is
held in memory as a sequence of customer documents in store order. A query
is an order-keeping filter over that sequence. Each operation is a pure
function from the store and its inputs to an answer and the new store.

Modules:

- `Decimal` (decimal.dfy): `str(n)` for customer ids and coupon codes, with
  the round trip through the digit reading that makes it injective.
- `Subsequence` (subsequence.dfy): order-keeping sublists, used to state
  what a delete and a redemption may do.
- `Store` (store.dfy): the `Coupon` and `Customer` documents, the two
  queries (by triple, by id), `COUNT(1)`, and the last record a query
  returns.
- `Resolver` (resolver.dfy): the duplicate count and the four-way branch
  every operation starts with. `Locate` follows it with the chosen query and
  keeps the last record returned.
- `Lifecycle` (lifecycle.dfy): `new_customer` (id = count + 1, written
  with an upsert) and `delete_customer`.
- `Coupons` (coupons.dfy): the redemption loop that removes from the list it
  is iterating over.
- `Visits` (visits.dfy): `get_customer`, `add_visit`, `use_coupon`.

Answers are a tagged `Response`: `Refused(message)` carries the two refusal
messages of the source verbatim, `Ok(value)` the normal answer, and
`Unbound` the failure when a by-id query returns nothing. In that case the
Python loop that should bind `klant` runs zero times, and the next use of
`klant` raises. The store is then unchanged. The optional id is an
`Option<string>`: `None` is the default `klant_id = 0`. Any string differs
from `0` in Python, so `Some(x)` always takes the id branch.

Behaviour of the code that the model keeps, although a reader would
expect unique customer ids and a redemption that removes only the first
coupon with the code:

- Ids are reused. The id is the record count plus one, so after a delete it
  can equal a live id. The upsert then overwrites that customer when it is
  in the same partition, or adds a second record with that id in another
  one (`IdReuseOverwrites`, `IdReuseDuplicates`). The model therefore never
  assumes unique ids. It only relies on the container's rule that an id is
  unique inside a partition (`DistinctKeys`), which every operation keeps.
- Redemption does not remove just the first entry with the code. The loop
  removes while iterating, so an entry that slides into a vacated position
  is skipped. It removes every entry with the code except those right
  behind a removed one. `RedeemDistinct` proves this rule for every list
  without repeated entries; `RedeemSkipsAdjacentTwin` and
  `RedeemRemovesSeparatedTwins` show its two cases. `list.remove` removes by value, so a
  later match can remove an earlier identical copy instead of itself
  (`RedeemRemovesEarlierCopy`).
- The by-id branch does not re-check the triple. With a duplicated triple
  and an id, the target is the last record with that id, whatever its name,
  postcode and house number (`IsTarget`).

Writes of a whole record (`replace_item` in a loop over the re-run query,
with the last record returned, changed, as the body) are modelled as
replacing the last record the query returns, at its position. This is a
modelling choice; the cases where the source may do something else are
listed under "## Left out".

## Model

| member | source | states |
|---|---|---|
| Decimal.NatToString | app.py:215 | `str(n)` for n >= 0 is a canonical decimal numeral (digits only, no leading zero) that reads back as n; so distinct numbers get distinct ids and codes |
| Lifecycle.NextId | app.py:76 | the new id is a decimal numeral whose value is the number of records in the whole container (the count of `get_count`) plus one |
| Store.Filter | app.py:145-156 | a query returns only records of the store that satisfy it (or, for delete, only those that do not), never more records than the store holds |
| Store.Count | app.py:106-117 | `SELECT VALUE COUNT(1)` with the triple's WHERE clause equals the number of records the same filter returns |
| Store.CountZeroIff | app.py:106-117 | the count is 0 exactly when no record carries the triple |
| Store.CountManyIff | app.py:106-117 | the count is at least 2 exactly when two distinct records carry the triple |
| Store.LastIndex | app.py:206-207 | the record the `for item in items` loop is left holding is at a position that matches, with no match after it; there is none exactly when nothing matches |
| Store.LastIndexIsLastResult | app.py:264-268 | that position holds the last element of the query result |
| Store.FilterPartition | app.py:156-160 | the query result and what a delete by the same query leaves together are the whole store, record for record |
| Store.FilterIsSubseq | app.py:156-160 | both the query result and the survivors of a delete keep store order |
| Store.NoMatchKeepsAll | app.py:156-160 | a query that matches nothing returns nothing, and a delete by it changes nothing |
| Store.FilterDropsSingle | app.py:144-160 | when one record alone matches, the delete leaves the store minus that record, the rest in order |
| Store.FilterKeepsDistinctKeys | app.py:159-160 | deleting keeps ids unique inside each partition |
| Resolver.Resolve | app.py:137-153 | not found exactly when no record has the triple; ambiguous exactly when two do and no id is given; the triple query exactly when one does (any id ignored); the id query exactly when two do and an id is given |
| Resolver.Locate | app.py:203-207 | after resolution: the two refusal messages under the same conditions; no result exactly when the triple is duplicated, an id is given and no record has it; otherwise the one target of the operation |
| Lifecycle.FindSlot | app.py:78-85 | the slot found is the first record with the same id in the same partition; none exactly when no record has both |
| Lifecycle.Upsert | app.py:78-85 | the written record is in the store; with a free slot it is appended; otherwise the length is kept and every record in another slot is untouched |
| Lifecycle.Fresh | app.py:76-84 | the document written by `new_customer` carries id count + 1 (a decimal numeral), the given triple and an empty coupon list |
| Lifecycle.CreateAppends | app.py:76-85 | on a container whose ids are "1" to "N" in order, creating a customer appends the record with id "N+1" |
| Lifecycle.NewCustomer | app.py:76-85 | the new record has id count + 1, the given triple and no coupons; the store grows by one exactly when no record has that id in that partition; other records are untouched |
| Lifecycle.SequentialIds | app.py:76-84 | creating N customers one after another in an empty container gives ids "1" to "N" in creation order, each with its triple and no coupons |
| Lifecycle.NewCustomerKeepsDistinctKeys | app.py:78-85 | creating a customer keeps ids unique inside each partition |
| Lifecycle.DeleteCustomer | app.py:137-162 | the two refusals leave the store unchanged; otherwise the answer is "Items verwijderd" and the store keeps, in order, exactly the records the chosen query does not return |
| Lifecycle.DeleteRemovesQueryResult | app.py:156-162 | a successful delete removes exactly the records its query returns, with multiplicity, and no survivor matches the query |
| Lifecycle.DeleteOnlyMatch | app.py:144-162 | deleting the only customer with a triple removes exactly that record, after which the triple is not found |
| Lifecycle.DeleteKeepsDistinctKeys | app.py:156-160 | delete keeps ids unique inside each partition |
| Lifecycle.IdReuseOverwrites | app.py:76-85 | after deleting id "1" of two, the next customer gets id "2" again and, in the partition of the old "2", replaces it with its coupons |
| Lifecycle.IdReuseDuplicates | app.py:76-85 | in another partition the reused id "2" sits beside the old "2" |
| Coupons.IndexOf | app.py:319 | the first position holding an entry equal to the given one |
| Coupons.RemoveFirst | app.py:319 | `list.remove` shortens the list by exactly one |
| Coupons.RemoveFirstTakesOneCopy | app.py:319 | `list.remove(x)` takes exactly one copy of x out of the list and nothing else: the first copy, since the entries before it stay in place and every entry after it moves down by one |
| Coupons.RedeemFrom | app.py:316-321 | the loop never lengthens the list; it reports a use exactly when some entry from the start position on has the code; when none has it the list is unchanged |
| Coupons.Redeem | app.py:316-321 | the loop over the whole list reports a use exactly when some entry carries the code, leaves the list unchanged otherwise, and never lengthens it |
| Coupons.RedeemFromIsSubseq | app.py:316-321 | whatever the codes, the loop only deletes entries and keeps the order of the rest |
| Coupons.RedeemIsSubseq | app.py:316-321 | the redeemed list is an order-keeping sublist of the original and never longer |
| Coupons.RedeemSingle | app.py:317-320 | a code carried by exactly one entry: that entry is removed, the others keep their order, and the use is reported |
| Coupons.RedeemSkipsTo | app.py:317-318 | entries before the first one with the code are passed over without effect |
| Coupons.RedeemSkipsAdjacentTwin | app.py:317-319 | of two adjacent entries with the same code only the first is removed |
| Coupons.RedeemRemovesSeparatedTwins | app.py:317-319 | two entries with the same code separated by another entry are both removed |
| Coupons.RemoveDistinct | app.py:319 | on a list without repeated entries, `list.remove` of the entry at the loop's position removes that entry and leaves a list without repeats |
| Coupons.RedeemFromDistinct | app.py:316-321 | on a list without repeated entries, the loop from position i keeps the entries before i and, after them, removes each entry with the code unless it sits right behind a removed one |
| Coupons.RedeemDistinct | app.py:316-321 | on a list without repeated entries, redemption leaves exactly the reference result: every entry with the code removed except those right behind a removed one, the rest in order |
| Coupons.RedeemRemovesEarlierCopy | app.py:317-319 | removal is by value: a later match removes an earlier identical copy that was skipped |
| Visits.GetCustomer | app.py:245-270 | refusals under the resolver's conditions; a crash when the id query returns nothing; otherwise exactly the target record; the store is not an output, so it is unchanged |
| Visits.GetReturnsLastResult | app.py:264-270 | the record returned is the last element of the chosen query's result, and an empty result is the crash |
| Visits.DuplicateResolvedById | app.py:247-261 | two customers with one triple and ids unique in the store: no id gives the ambiguity message, the id of either one returns that customer |
| Visits.Entry | app.py:209-216 | the coupon entry records the shop and the time stamp, and its code is the decimal rendering of the drawn number |
| Visits.AddVisit | app.py:181-227 | refusals and crash leave the store unchanged; otherwise the answer is the drawn code, within 100000..100000000, the target's coupon list gains one entry (shop, time, code as a decimal string) at its end, and every other record is untouched; ids and triples never change |
| Visits.UseCoupon | app.py:289-329 | refusals and crash leave the store unchanged; otherwise only the target's coupon list changes, to the redemption loop's result; the answer is "Coupon gevonden en gebruikt." exactly when some entry had the code and "Coupon niet gevonden" exactly when none did, in which case the store is unchanged |
| Visits.UseCouponSingle | app.py:309-329 | with a code carried by exactly one coupon of the target, that coupon is removed, the rest keep their order, and the use is reported |
| Visits.VisitThenRedeem | app.py:209-320 | a visit followed by redeeming the code it issued, when the target held no coupon with that code, returns the store to what it was |
| Visits.SameIdentityKeepsTarget | app.py:221-225 | coupon changes do not move the target, since only triples and ids decide it |
| Visits.VisitsKeepDistinctKeys | app.py:212-227 | recording a visit and redeeming a coupon keep ids unique inside each partition |
| Visits.Scenario | app.py:76-329 | an empty store, one customer created, a visit to "Winkel A" issuing code C, then redeeming C: id "1", one coupon with code C, then the original store again |

## Left out

- Connecting to the container and creating the database and container
  (app.py:19-42), and reading connection settings from the environment
  (app.py:14-17): set-up with no decisions.
- The HTTP resources and routes (app.py:340-458): thin request parsing.
  They also refer to an undefined `klant_id` at app.py:409 and app.py:415.
- Query text construction and quoting (app.py:106-110 and the other query
  strings). A query is modelled as a filter, so a name containing a quote
  character behaves as plain text here.
- JSON serialisation round trips: records are used as they are.
- The clock and the random number generator: the time stamp and the drawn
  code are inputs of `AddVisit`, which requires the code to lie in
  100000..100000000.
- Lifecycle.DeleteCustomer: the partition key passed to `delete_item` is the
  given name, not the name of the returned record. When the by-id query
  returns a record from another partition, the container would reject that
  delete; the model removes every returned record. In the source the
  rejection raises out of `delete_customer` (app.py:159-160 has no
  handler), so it returns no "Items verwijderd", and records deleted
  earlier in the same loop stay deleted.
- Visits.AddVisit, Visits.UseCoupon: the replace loops (app.py:224-225,
  app.py:326-327) send every returned item with the last record as the
  body, so every replace carries the last record's partition key. When the
  by-id query returns records from several partitions (possible after id
  reuse), a replace of an item in another partition may be rejected by the
  container, which would raise before the last record is written. The
  model answers normally and rewrites only the last record; partition-key
  checking by the container is not modelled.
- Result order: the model fixes one order of the container, and every
  query returns its records in that order. The container does not fix the
  order of a cross-partition query without ORDER BY, so in the source "the
  last record returned" (app.py:206-207, 267-268, 312-313) is only as
  deterministic as that order.
- Concurrency: the count and the fetch see the same store, and no write
  happens between a read and its replace. This rules out the races of
  count-then-fetch and of two creations computing the same id.
- Failures of the container itself (connectivity, throttling) are not
  modelled.
