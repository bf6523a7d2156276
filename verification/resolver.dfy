/** The identity resolution every operation starts with: count the records
    that carry the name, postcode and house number, then branch four ways on
    that count and on whether an id was supplied. */
module Resolver {
  import opened Store

  const NotFoundMessage := "De klant gegevens zijn niet gevonden in het systeem."
  const AmbiguousMessage := "De klant is dubbel gevonden en er is geen ID waarde meegegeven."

  /** The four branches: the two refusals, or the query the operation runs. */
  datatype Resolution = NotFound | Ambiguous | Chosen(query: Query)

  /** What an operation answers: one of the refusal messages, its value, or
      `Unbound` when the loop meant to bind the customer ran zero times and
      the next use of that variable raised. */
  datatype Response<T> = Refused(message: string) | Ok(value: T) | Unbound

  /** An answer together with the store after the operation. */
  datatype Outcome<T> = Outcome(reply: Response<T>, store: seq<Customer>)

  /** At least two records carry the triple. */
  predicate Duplicated(s: seq<Customer>, naw: Naw) {
    exists i, j :: 0 <= i < j < |s| && NawOf(s[i]) == naw && NawOf(s[j]) == naw
  }

  /** Position `i` holds the one record that carries the triple. */
  predicate OnlyMatch(s: seq<Customer>, naw: Naw, i: nat) {
    && i < |s|
    && NawOf(s[i]) == naw
    && forall j :: 0 <= j < |s| && NawOf(s[j]) == naw ==> j == i
  }

  /** Position `i` holds the last record with id `x`. */
  predicate LastWithId(s: seq<Customer>, x: string, i: nat) {
    && i < |s|
    && s[i].id == x
    && forall j :: i < j < |s| ==> s[j].id != x
  }

  /** The record an operation acts on: the only record carrying the triple
      (any id is then ignored), or, when the triple is carried more than once
      and an id is given, the last record with that id, whatever its triple. */
  predicate IsTarget(s: seq<Customer>, naw: Naw, klantId: Option<string>, i: nat) {
    || OnlyMatch(s, naw, i)
    || (klantId.Some? && Duplicated(s, naw) && LastWithId(s, klantId.value, i))
  }

  /** The branch that leaves the customer variable unbound: the triple is
      duplicated, an id is given, and no record has that id. */
  predicate Crashes(s: seq<Customer>, naw: Naw, klantId: Option<string>) {
    && klantId.Some?
    && Duplicated(s, naw)
    && forall j :: 0 <= j < |s| ==> s[j].id != klantId.value
  }

  /** The duplicate check followed by the four-way branch on its count. */
  function Resolve(s: seq<Customer>, naw: Naw, klantId: Option<string>): (r: Resolution)
    ensures r == NotFound <==> NoneMatch(s, ByNaw(naw))
    ensures r == Ambiguous <==> Duplicated(s, naw) && klantId.None?
    ensures r == Chosen(ByNaw(naw)) <==> !NoneMatch(s, ByNaw(naw)) && !Duplicated(s, naw)
    ensures (r.Chosen? && r.query.ById?) <==> Duplicated(s, naw) && klantId.Some?
    ensures r.Chosen? && r.query.ById? ==> r.query.id == klantId.value
  {
    var klantCount := Count(s, ByNaw(naw));
    CountZeroIff(s, ByNaw(naw));
    CountManyIff(s, ByNaw(naw));
    if klantCount == 0 then NotFound
    else if klantCount > 1 && klantId.None? then Ambiguous
    else if klantCount == 1 then Chosen(ByNaw(naw))
    else Chosen(ById(klantId.value))
  }

  /** Where resolution leaves an operation that reads one record. */
  datatype Located = Refusal(message: string) | NoResult | At(index: nat)

  /** Resolution followed by the chosen query, keeping the last record it
      returns. */
  function Locate(s: seq<Customer>, naw: Naw, klantId: Option<string>): (t: Located)
    ensures t == Refusal(NotFoundMessage) <==> NoneMatch(s, ByNaw(naw))
    ensures t == Refusal(AmbiguousMessage) <==> Duplicated(s, naw) && klantId.None?
    ensures t == NoResult <==> Crashes(s, naw, klantId)
    ensures t.At? ==> t.index < |s| && IsTarget(s, naw, klantId, t.index)
    ensures forall i :: IsTarget(s, naw, klantId, i) ==> t == At(i)
  {
    match Resolve(s, naw, klantId)
    case NotFound => Refusal(NotFoundMessage)
    case Ambiguous => Refusal(AmbiguousMessage)
    case Chosen(q) =>
      match LastIndex(s, q)
      case None => NoResult
      case Some(i) => At(i)
  }
}
