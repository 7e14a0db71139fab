/** The `GET /quote` route of src/api/quotesApi.ts. The query parameters are optional strings;
    the route picks one lookup by precedence (`quoteNumber`, then `alias`, then `search`, else a
    random quote) and answers with what it found, or with status 404. */
module QuotesApi {
  import opened Wrappers
  import opened Js
  import Quotes

  datatype Query = Query(quoteNumber: Option<string>, alias: Option<string>, search: Option<string>)

  /** What `res.send` serialises: one quote, or the array of a multi-quote search. */
  datatype Body = One(quote: Quotes.Quote) | Many(quotes: seq<Quotes.Quote>)

  /** The calls the route makes on the response object, in order. */
  datatype Send = SendStatus(status: int) | SendBody(body: Option<Body>)

  function FoundBody(f: Quotes.Found): (b: Option<Body>)
    ensures b.None? <==> f.NoMatch?
  {
    match f
    case NoMatch => None
    case Single(q) => Some(One(q))
    case Multiple(qs) => Some(Many(qs))
  }

  function QuoteBody(q: Option<Quotes.Quote>): (b: Option<Body>)
    ensures b.None? <==> q.None?
    ensures q.Some? ==> b == Some(One(q.value))
  {
    if q.None? then None else Some(One(q.value))
  }

  /** The lookup the route makes: the first truthy parameter of `quoteNumber` (read with
      `parseInt(_, 10)`), `alias` and `search` decides; with none of them a random quote. */
  function Lookup(t: Quotes.Table, query: Query, pick: nat): (b: Option<Body>)
    ensures Truthy(query.quoteNumber) ==>
      b == QuoteBody(Quotes.QuoteById(t, ParseInt(query.quoteNumber.value, Ten)))
    ensures !Truthy(query.quoteNumber) && Truthy(query.alias) ==>
      b == QuoteBody(Quotes.QuoteByAlias(t, query.alias.value))
    ensures !Truthy(query.quoteNumber) && !Truthy(query.alias) && Truthy(query.search) ==>
      b == FoundBody(Quotes.SearchQuote(t, query.search.value))
    ensures !Truthy(query.quoteNumber) && !Truthy(query.alias) && !Truthy(query.search) ==>
      b == QuoteBody(Quotes.RandomQuote(t, pick)) && (b.None? <==> t.rows == [])
  {
    if Truthy(query.quoteNumber) then QuoteBody(Quotes.QuoteById(t, ParseInt(query.quoteNumber.value, Ten)))
    else if Truthy(query.alias) then QuoteBody(Quotes.QuoteByAlias(t, query.alias.value))
    else if Truthy(query.search) then FoundBody(Quotes.SearchQuote(t, query.search.value))
    else QuoteBody(Quotes.RandomQuote(t, pick))
  }

  /** The route handler: `sendStatus(404)` when nothing was found, and then `send(quote)` in
      every case. */
  function Route(t: Quotes.Table, query: Query, pick: nat): (sends: seq<Send>)
    ensures 1 <= |sends| <= 2
    ensures sends[|sends| - 1] == SendBody(Lookup(t, query, pick))
    ensures sends[0] == SendStatus(404) <==> Lookup(t, query, pick).None?
  {
    var found := Lookup(t, query, pick);
    if found.None? then [SendStatus(404), SendBody(found)] else [SendBody(found)]
  }

  /** A `quoteNumber` that is the decimal text of an id answers with that quote, or 404 when
      there is none, whatever the other parameters say. */
  lemma QuoteNumberRoundTrip(t: Quotes.Table, id: int, alias: Option<string>, search: Option<string>, pick: nat)
    ensures var sends := Route(t, Query(Some(IntToString(id)), alias, search), pick);
      && (Quotes.HasId(t.rows, id) ==>
            sends == [SendBody(Some(One(Quotes.QuoteById(t, Int(id)).value)))] && Quotes.QuoteById(t, Int(id)).value.id == id)
      && (!Quotes.HasId(t.rows, id) ==> sends == [SendStatus(404), SendBody(None)])
  {
    ParseIntToString(id, Ten);
  }

  /** A `quoteNumber` that holds no digits reads as NaN, which matches no row: 404. */
  lemma QuoteNumberNaN(t: Quotes.Table, query: Query, pick: nat)
    requires Truthy(query.quoteNumber) && ParseInt(query.quoteNumber.value, Ten).NaN?
    ensures Route(t, query, pick) == [SendStatus(404), SendBody(None)]
  {
  }

  /** The empty string counts as absent: `?quoteNumber=&alias=x` looks up the alias. */
  lemma EmptyParameterSkipped(t: Quotes.Table, alias: string, pick: nat)
    requires alias != ""
    ensures Lookup(t, Query(Some(""), Some(alias), None), pick) == QuoteBody(Quotes.QuoteByAlias(t, alias))
  {
  }
}
