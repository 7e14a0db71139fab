/** src/quotes/getRemoteQuote.ts: fetching a quote from another bot's quote API. The HTTP round
    trip is a parameter: `fetch` maps the request URL to what the request yields. */
module RemoteQuote {
  import opened Wrappers
  import opened Js
  import Quotes

  /** `REMOTE_QUOTE_SOURCES`, which has one member. */
  datatype Source = Ceejus

  /** `SOURCES_URL_MAP`. */
  function SourceUrl(source: Source): string {
    match source
    case Ceejus => "https://ceejus.deepwelldevelopment.com/api/quotes/quote"
  }

  /** The JSON body the remote API answers with. */
  datatype RemoteRecord = RemoteRecord(id: int, quote: string, alias: string, quotedBy: string, quotedOn: string)

  /** What `fetch(url)` yields: it rejects, or it resolves to a response whose `json()` gives a
      record or rejects (None). */
  datatype HttpResult =
    | NetworkError
    | HttpResponse(ok: bool, status: int, json: Option<RemoteRecord>)

  /** The URL `getRemoteQuote` requests: the bare URL for a random quote; with words, the first
      one read by `parseInt(_, 10)` as `?quoteNumber=<id>`, or when that is NaN all words joined
      by spaces as `?alias=` (not URL-encoded). */
  function RequestUrl(args: seq<string>, source: Source): (url: string)
    ensures args == [] ==> url == SourceUrl(source)
    ensures args != [] && ParseInt(args[0], Ten).NaN? ==> url == SourceUrl(source) + "?alias=" + Join(args, ' ')
    ensures args != [] && ParseInt(args[0], Ten).Int? ==>
      url == SourceUrl(source) + "?quoteNumber=" + IntToString(ParseInt(args[0], Ten).value)
  {
    var base := SourceUrl(source);
    if args == [] then base
    else
      match ParseInt(args[0], Ten)
      case NaN => base + "?alias=" + Join(args, ' ')
      case Int(id) => base + "?quoteNumber=" + IntToString(id)
  }

  /** The mapping of `sendAndParseRequest`: `quotedOn` becomes the date, `quotedBy` is dropped. */
  function ToQuote(data: RemoteRecord): (q: Quotes.Quote)
    ensures q.id == data.id && q.quote == data.quote && q.date == data.quotedOn && q.alias == Some(data.alias)
  {
    Quotes.Quote(data.id, data.quote, data.quotedOn, Some(data.alias))
  }

  /** `getRemoteQuote(args, source)`: the mapped quote, or `undefined` when the request fails,
      the status is not ok (the thrown error is caught) or the body is not JSON. */
  function GetRemoteQuote(args: seq<string>, source: Source, fetch: string -> HttpResult): (q: Option<Quotes.Quote>)
    ensures var r := fetch(RequestUrl(args, source));
      && (q.None? <==> r.NetworkError? || !r.ok || r.json.None?)
      && (q.Some? ==> q.value == ToQuote(r.json.value))
  {
    match fetch(RequestUrl(args, source))
    case NetworkError => None
    case HttpResponse(ok, _, json) =>
      if !ok then None
      else if json.None? then None
      else Some(ToQuote(json.value))
  }

  /** The query string of a quote-number request reads back, with `parseInt(_, 10)`, as the id
      that was asked for. */
  lemma QuoteNumberRoundTrip(args: seq<string>, source: Source, id: int)
    requires args != [] && ParseInt(args[0], Ten) == Int(id)
    ensures var url := RequestUrl(args, source);
      var prefix := SourceUrl(source) + "?quoteNumber=";
      && prefix <= url
      && ParseInt(url[|prefix|..], Ten) == Int(id)
  {
    var prefix := SourceUrl(source) + "?quoteNumber=";
    var url := RequestUrl(args, source);
    assert url == prefix + IntToString(id);
    assert url[|prefix|..] == IntToString(id);
    ParseIntToString(id, Ten);
  }

  /** An alias request carries every word, and splitting its query value at spaces gives the
      words back. */
  lemma AliasCarriesAllWords(args: seq<string>, source: Source)
    requires args != [] && ParseInt(args[0], Ten).NaN?
    requires forall i :: 0 <= i < |args| ==> ' ' !in args[i]
    ensures var url := RequestUrl(args, source);
      var prefix := SourceUrl(source) + "?alias=";
      && prefix <= url
      && Split(url[|prefix|..], ' ') == args
  {
    var prefix := SourceUrl(source) + "?alias=";
    var url := RequestUrl(args, source);
    assert url[|prefix|..] == Join(args, ' ');
    SplitJoin(args, ' ');
  }
}
