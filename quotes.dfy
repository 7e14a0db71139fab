/** The quote store of src/quotes/quotes.ts over an in-memory `quotes` table.

    The table is a sequence of rows in scan order (the order `SELECT *` visits a rowid
    table: ascending id). The pure functions below are the store's operations on a table
    value; the class `QuoteStore` holds the shared table and changes it in place through
    the four writing operations, each specified by its pure counterpart. */
module Quotes {
  import opened Wrappers
  import opened Js

  /** A row of the `quotes` table; `alias` is None for SQL NULL. */
  datatype Row = Row(id: int, text: string, date: string, alias: Option<string>)

  /** The record the store hands out (`quote_text` becomes `quote`, `creation_date` becomes `date`). */
  datatype Quote = Quote(id: int, quote: string, date: string, alias: Option<string>)

  /** The rows in scan order, and the value the schema gives `alias` when an INSERT leaves it
      out (the schema script dbSetup.sql is not part of this model, so the default is a parameter). */
  datatype Table = Table(rows: seq<Row>, aliasDefault: Option<string>)

  /** `searchQuote`'s result: `undefined`, one bare quote, or an array of at least two. */
  datatype Found = NoMatch | Single(quote: Quote) | Multiple(quotes: seq<Quote>)

  /** The calendar fields of `new Date(Date.now())`: day of the month, zero-based month, year. */
  datatype Today = Today(dayOfMonth: int, zeroBasedMonth: int, fullYear: int)

  /** What a command handler gets from outside the store: the choice `ORDER BY random()` makes,
      the current day, and whether the writing statement it issues throws. */
  datatype Env = Env(pick: nat, today: Today, writeThrows: bool)

  /** Ids are positive and strictly ascending in scan order, hence unique. */
  ghost predicate WellFormed(t: Table) {
    Ascending(t.rows)
  }

  ghost predicate Ascending(rows: seq<Row>) {
    && (forall i :: 0 <= i < |rows| ==> rows[i].id > 0)
    && (forall i, j :: 0 <= i < j < |rows| ==> rows[i].id < rows[j].id)
  }

  predicate HasId(rows: seq<Row>, id: int) {
    exists i :: 0 <= i < |rows| && rows[i].id == id
  }

  function ToQuote(r: Row): Quote {
    Quote(r.id, r.text, r.date, r.alias)
  }

  // ---------------------------------------------------------------------------
  // getDateString

  /** `getDateString`: `day/month/year` with the zero-based month of `Date.getMonth`. */
  function DateString(today: Today): (s: string)
    ensures Split(s, '/') ==
      [IntToString(today.dayOfMonth), IntToString(today.zeroBasedMonth), IntToString(today.fullYear)]
  {
    var parts := [IntToString(today.dayOfMonth), IntToString(today.zeroBasedMonth), IntToString(today.fullYear)];
    JoinThree(parts[0], parts[1], parts[2], '/');
    SplitJoin(parts, '/');
    IntToString(today.dayOfMonth) + "/" + IntToString(today.zeroBasedMonth) + "/" + IntToString(today.fullYear)
  }

  /** Each of the three numbers of the date text parses back to its calendar field. */
  lemma DateStringFields(today: Today)
    ensures ParseInt(Split(DateString(today), '/')[0], Ten) == Int(today.dayOfMonth)
    ensures ParseInt(Split(DateString(today), '/')[1], Ten) == Int(today.zeroBasedMonth)
    ensures ParseInt(Split(DateString(today), '/')[2], Ten) == Int(today.fullYear)
  {
    ParseIntToString(today.dayOfMonth, Ten);
    ParseIntToString(today.zeroBasedMonth, Ten);
    ParseIntToString(today.fullYear, Ten);
  }

  // ---------------------------------------------------------------------------
  // addQuote

  /** The largest id in the table, 0 for an empty table. */
  function MaxId(rows: seq<Row>): (m: int)
    ensures forall i :: 0 <= i < |rows| ==> rows[i].id <= m
    ensures rows == [] ==> m == 0
    ensures rows != [] ==> HasId(rows, m)
  {
    if rows == [] then 0
    else if |rows| == 1 then rows[0].id
    else
      var m := MaxId(rows[1..]);
      assert HasId(rows, m) by {
        var i :| 0 <= i < |rows[1..]| && rows[1..][i].id == m;
        assert rows[i + 1].id == m;
      }
      if rows[0].id > m then rows[0].id else m
  }

  /** The rowid the engine gives the next row: one more than the largest id, 1 for an empty
      table (SQLite's rule for a rowid table without AUTOINCREMENT while the largest rowid is
      below its maximum). */
  function NewId(t: Table): (id: int)
    ensures !HasId(t.rows, id)
    ensures WellFormed(t) ==> id > 0
  {
    MaxId(t.rows) + 1
  }

  /** `addQuote(text)` on the day `today`: the row is appended under the next rowid with the
      column default as alias, and the caller gets the new id, the text and the date without
      alias. When the INSERT throws, the result is `undefined` and the table is unchanged; when
      the new rowid is 0 (falsy) the row stays but the result is `undefined` too. */
  function Add(t: Table, text: string, today: Today, insertThrows: bool): (res: (Table, Option<Quote>))
    ensures insertThrows ==> res == (t, None)
    ensures !insertThrows ==>
      res.0 == t.(rows := t.rows + [Row(NewId(t), text, DateString(today), t.aliasDefault)])
    ensures !insertThrows ==> (res.1.None? <==> NewId(t) == 0)
    ensures res.1.Some? ==> res.1.value == Quote(NewId(t), text, DateString(today), None)
    ensures WellFormed(t) ==> WellFormed(res.0) && (res.1.None? <==> insertThrows)
  {
    if insertThrows then (t, None)
    else
      var id := NewId(t);
      var date := DateString(today);
      var t' := t.(rows := t.rows + [Row(id, text, date, t.aliasDefault)]);
      if id == 0 then (t', None) else (t', Some(Quote(id, text, date, None)))
  }

  // ---------------------------------------------------------------------------
  // deleteQuote

  /** The rows whose id differs from `id`, in scan order. */
  function Without(rows: seq<Row>, id: int): (r: seq<Row>)
    ensures forall x :: x in r <==> x in rows && x.id != id
    ensures |r| <= |rows|
  {
    if rows == [] then []
    else if rows[0].id == id then Without(rows[1..], id)
    else [rows[0]] + Without(rows[1..], id)
  }

  /** Below the first row of an ascending table: the rest is ascending and has larger ids. */
  lemma TailAscending(rows: seq<Row>)
    requires Ascending(rows) && rows != []
    ensures Ascending(rows[1..])
    ensures forall x :: x in rows[1..] ==> rows[0].id < x.id
  {
    var tail := rows[1..];
    forall i | 0 <= i < |tail| ensures tail[i].id > 0 { assert tail[i] == rows[i + 1]; }
    forall i, j | 0 <= i < j < |tail| ensures tail[i].id < tail[j].id {
      assert tail[i] == rows[i + 1] && tail[j] == rows[j + 1];
    }
    forall x | x in tail ensures rows[0].id < x.id {
      var j :| 0 <= j < |tail| && tail[j] == x;
      assert rows[j + 1] == x;
    }
  }

  /** A row with a positive id below every id of an ascending table may go in front of it. */
  lemma ConsAscending(x: Row, r: seq<Row>)
    requires Ascending(r) && x.id > 0
    requires forall y :: y in r ==> x.id < y.id
    ensures Ascending([x] + r)
  {
    var w := [x] + r;
    forall i, j | 0 <= i < j < |w| ensures w[i].id < w[j].id {
      if i == 0 { assert w[j] == r[j - 1]; assert w[j] in r; } else { assert w[i] == r[i - 1] && w[j] == r[j - 1]; }
    }
    forall i | 0 <= i < |w| ensures w[i].id > 0 {
      if i > 0 { assert w[i] == r[i - 1]; }
    }
  }

  /** Filtering keeps ids positive and ascending. */
  lemma {:induction false} WithoutAscending(rows: seq<Row>, id: int)
    requires Ascending(rows)
    ensures Ascending(Without(rows, id))
    decreases |rows|
  {
    if rows != [] {
      TailAscending(rows);
      WithoutAscending(rows[1..], id);
      if rows[0].id != id {
        ConsAscending(rows[0], Without(rows[1..], id));
      }
    }
  }

  /** `deleteQuote(id)`: afterwards no row has `id` and every other row is kept; the result is true
      whether or not a row was removed, and false only when the DELETE throws. */
  function Delete(t: Table, id: int, deleteThrows: bool): (res: (Table, bool))
    ensures res.1 == !deleteThrows
    ensures deleteThrows ==> res.0 == t
    ensures !deleteThrows ==> !HasId(res.0.rows, id)
    ensures !deleteThrows ==> forall x :: x in t.rows && x.id != id ==> x in res.0.rows
    ensures res.0.aliasDefault == t.aliasDefault && (forall x :: x in res.0.rows ==> x in t.rows)
    ensures WellFormed(t) ==> WellFormed(res.0)
  {
    if deleteThrows then (t, false)
    else
      var r := Without(t.rows, id);
      assert !HasId(r, id) by {
        forall i | 0 <= i < |r| ensures r[i].id != id {
          assert r[i] in r;
        }
      }
      assert WellFormed(t) ==> WellFormed(t.(rows := r)) by {
        if WellFormed(t) { WithoutAscending(t.rows, id); }
      }
      (t.(rows := r), true)
  }

  // ---------------------------------------------------------------------------
  // getQuoteById, getQuoteByAlias, editQuote, aliasQuote

  /** The first row, in scan order, whose id is `id`. */
  function FindById(rows: seq<Row>, id: int): (r: Option<Row>)
    ensures r.Some? ==> r.value in rows && r.value.id == id
    ensures r.None? <==> !HasId(rows, id)
  {
    if rows == [] then None
    else if rows[0].id == id then Some(rows[0])
    else
      var r := FindById(rows[1..], id);
      assert HasId(rows[1..], id) <==> HasId(rows, id) by {
        if HasId(rows, id) {
          var i :| 0 <= i < |rows| && rows[i].id == id;
          assert i > 0 && rows[1..][i - 1].id == id;
        }
        if HasId(rows[1..], id) {
          var i :| 0 <= i < |rows[1..]| && rows[1..][i].id == id;
          assert rows[i + 1].id == id;
        }
      }
      r
  }

  /** The alias expression of `getQuoteById` and `getLatestQuote`,
      `alias || alias !== 'NONE' ? alias : undefined`: by operator precedence the condition is
      `(alias || alias !== 'NONE')`, which holds for every value, so the alias is passed on
      unchanged, `'NONE'` included. */
  function ReturnedAlias(alias: Option<string>): (r: Option<string>)
    ensures r == alias
  {
    if Truthy(alias) || alias != Some("NONE") then alias else None
  }

  /** `getQuoteById(key)`: the quote stored under that id, or `undefined`. A NaN key is bound as
      NULL and matches no row. */
  function QuoteById(t: Table, key: Num): (q: Option<Quote>)
    ensures q.None? <==> key.NaN? || !HasId(t.rows, key.value)
    ensures q.Some? ==> q.value.id == key.value && exists r :: r in t.rows && q.value == ToQuote(r)
  {
    match key
    case NaN => None
    case Int(id) =>
      match FindById(t.rows, id)
      case None => None
      case Some(r) => Some(Quote(r.id, r.text, r.date, ReturnedAlias(r.alias)))
  }

  /** The first row, in scan order, whose alias is `alias` (a NULL alias never matches). */
  function FindByAlias(rows: seq<Row>, alias: string): (r: Option<Row>)
    ensures r.Some? ==> r.value in rows && r.value.alias == Some(alias)
    ensures r.None? <==> forall x :: x in rows ==> x.alias != Some(alias)
    ensures r.Some? ==> exists i :: 0 <= i < |rows| && rows[i] == r.value &&
                          forall j :: 0 <= j < i ==> rows[j].alias != Some(alias)
  {
    if rows == [] then None
    else if rows[0].alias == Some(alias) then Some(rows[0])
    else
      var r := FindByAlias(rows[1..], alias);
      assert r.Some? ==> exists i :: 0 <= i < |rows| && rows[i] == r.value &&
                          forall j :: 0 <= j < i ==> rows[j].alias != Some(alias) by {
        if r.Some? {
          var i :| 0 <= i < |rows[1..]| && rows[1..][i] == r.value &&
                   forall j :: 0 <= j < i ==> rows[1..][j].alias != Some(alias);
          assert rows[i + 1] == r.value;
          assert forall j :: 0 <= j < i + 1 ==> rows[j].alias != Some(alias) by {
            forall j | 0 <= j < i + 1 ensures rows[j].alias != Some(alias) {
              if j > 0 { assert rows[j] == rows[1..][j - 1]; }
            }
          }
        }
      }
      r
  }

  /** `getQuoteByAlias(alias)`: the first quote carrying that alias, or `undefined`. */
  function QuoteByAlias(t: Table, alias: string): (q: Option<Quote>)
    ensures q.None? <==> forall x :: x in t.rows ==> x.alias != Some(alias)
    ensures q.Some? ==> q.value.alias == Some(alias) && exists r :: r in t.rows && q.value == ToQuote(r)
  {
    match FindByAlias(t.rows, alias)
    case None => None
    case Some(r) => Some(ToQuote(r))
  }

  /** The table after `UPDATE quotes SET quote_text = text WHERE id = id`. */
  function WithText(rows: seq<Row>, id: int, text: string): (r: seq<Row>)
    ensures |r| == |rows|
    ensures forall i :: 0 <= i < |rows| ==>
      r[i] == if rows[i].id == id then rows[i].(text := text) else rows[i]
  {
    seq(|rows|, i requires 0 <= i < |rows| => if rows[i].id == id then rows[i].(text := text) else rows[i])
  }

  /** `editQuote(id, text)`: only `quote_text` of the row with that id changes (its id, date and
      alias and every other row stay); the result is that row re-read, or `undefined` when no row
      has the id or the UPDATE throws (then the table is unchanged). */
  function Edit(t: Table, id: int, text: string, updateThrows: bool): (res: (Table, Option<Quote>))
    ensures updateThrows ==> res == (t, None)
    ensures !updateThrows ==> |res.0.rows| == |t.rows| && res.0.aliasDefault == t.aliasDefault
    ensures !updateThrows ==> forall i :: 0 <= i < |t.rows| ==>
      && res.0.rows[i].id == t.rows[i].id
      && res.0.rows[i].date == t.rows[i].date
      && res.0.rows[i].alias == t.rows[i].alias
      && res.0.rows[i].text == (if t.rows[i].id == id then text else t.rows[i].text)
    ensures !updateThrows ==> res.1 == QuoteById(res.0, Int(id))
  {
    if updateThrows then (t, None)
    else
      var t' := t.(rows := WithText(t.rows, id, text));
      (t', QuoteById(t', Int(id)))
  }

  /** The table after `UPDATE quotes SET alias = alias WHERE id = key` (a NaN key matches nothing). */
  function WithAlias(rows: seq<Row>, key: Num, alias: string): (r: seq<Row>)
    ensures |r| == |rows|
    ensures forall i :: 0 <= i < |rows| ==>
      r[i] == if key == Int(rows[i].id) then rows[i].(alias := Some(alias)) else rows[i]
  {
    seq(|rows|, i requires 0 <= i < |rows| =>
      if key == Int(rows[i].id) then rows[i].(alias := Some(alias)) else rows[i])
  }

  /** `aliasQuote(alias, key)`: sets the alias of the row with that id only, then answers
      `getQuoteByAlias(alias)` on the new table. */
  function SetAlias(t: Table, alias: string, key: Num): (res: (Table, Option<Quote>))
    ensures |res.0.rows| == |t.rows| && res.0.aliasDefault == t.aliasDefault
    ensures forall i :: 0 <= i < |t.rows| ==>
      && res.0.rows[i].id == t.rows[i].id
      && res.0.rows[i].date == t.rows[i].date
      && res.0.rows[i].text == t.rows[i].text
      && res.0.rows[i].alias == (if key == Int(t.rows[i].id) then Some(alias) else t.rows[i].alias)
    ensures res.1 == QuoteByAlias(res.0, alias)
  {
    var t' := t.(rows := WithAlias(t.rows, key, alias));
    (t', QuoteByAlias(t', alias))
  }

  // ---------------------------------------------------------------------------
  // getRandomQuote, getLatestQuote, searchQuote

  /** `getRandomQuote()`, the random choice of `ORDER BY random()` given as `pick`: some stored
      quote, or `undefined` exactly when the table is empty (reading a field of the missing row
      throws and is caught). */
  function RandomQuote(t: Table, pick: nat): (q: Option<Quote>)
    ensures q.None? <==> t.rows == []
    ensures q.Some? ==> exists r :: r in t.rows && q.value == ToQuote(r)
  {
    if t.rows == [] then None else Some(ToQuote(t.rows[pick % |t.rows|]))
  }

  /** `getLatestQuote()`: the quote with the largest id, or `undefined` exactly when the table is
      empty; its alias goes through the same always-true filter as `getQuoteById`. */
  function LatestQuote(t: Table): (q: Option<Quote>)
    ensures q.None? <==> t.rows == []
    ensures q.Some? ==> (exists r :: r in t.rows && q.value == ToQuote(r)) &&
                        forall r :: r in t.rows ==> r.id <= q.value.id
  {
    if t.rows == [] then None
    else
      var r := FindById(t.rows, MaxId(t.rows)).value;
      Some(Quote(r.id, r.text, r.date, ReturnedAlias(r.alias)))
  }

  /** The rows whose text contains `term`, in scan order. */
  function Matching(rows: seq<Row>, term: string): (r: seq<Row>)
    ensures forall x :: x in r <==> x in rows && Includes(x.text, term)
    ensures |r| <= |rows|
  {
    if rows == [] then []
    else if Includes(rows[0].text, term) then [rows[0]] + Matching(rows[1..], term)
    else Matching(rows[1..], term)
  }

  function ToQuotes(rows: seq<Row>): (qs: seq<Quote>)
    ensures |qs| == |rows| && forall i :: 0 <= i < |rows| ==> qs[i] == ToQuote(rows[i])
  {
    seq(|rows|, i requires 0 <= i < |rows| => ToQuote(rows[i]))
  }

  /** The quotes a result holds, in order. */
  function FoundQuotes(f: Found): seq<Quote> {
    match f
    case NoMatch => []
    case Single(q) => [q]
    case Multiple(qs) => qs
  }

  /** `searchQuote(s)`: the rows whose stored text (not lower-cased) contains `s.toLowerCase()`,
      in scan order; none gives `undefined`, one a bare quote, two or more an array. */
  function SearchQuote(t: Table, s: string): (f: Found)
    ensures FoundQuotes(f) == ToQuotes(Matching(t.rows, Lower(s)))
    ensures f.Multiple? ==> |f.quotes| >= 2
  {
    var found := ToQuotes(Matching(t.rows, Lower(s)));
    if |found| == 0 then NoMatch
    else if |found| == 1 then Single(found[0])
    else Multiple(found)
  }

  // ---------------------------------------------------------------------------
  // Properties relating several operations

  /** A quote that was added is found again by its id, with the text and date it was given and
      the column default as alias. */
  lemma AddThenGet(t: Table, text: string, today: Today)
    ensures QuoteById(Add(t, text, today, false).0, Int(NewId(t))) ==
      Some(Quote(NewId(t), text, DateString(today), t.aliasDefault))
  {
    var row := Row(NewId(t), text, DateString(today), t.aliasDefault);
    FindByIdAppend(t.rows, row);
  }

  /** The falsy-rowid check of `addQuote` fires exactly when the largest id is -1, which a
      well-formed table never holds; the row is inserted all the same. */
  lemma AddZeroRowid(t: Table, text: string, today: Today)
    ensures Add(t, text, today, false).1.None? <==> MaxId(t.rows) == -1
    ensures MaxId(t.rows) == -1 ==>
      Add(t, text, today, false).0.rows == t.rows + [Row(0, text, DateString(today), t.aliasDefault)]
    ensures WellFormed(t) ==> MaxId(t.rows) != -1
  {
    if WellFormed(t) && t.rows != [] {
      var i :| 0 <= i < |t.rows| && t.rows[i].id == MaxId(t.rows);
    }
  }

  /** A table on which the falsy-rowid check fires: its only row has id -1, and the added row
      gets rowid 0 but `undefined` comes back. */
  lemma AddZeroRowidWitness(text: string, today: Today)
    ensures var t := Table([Row(-1, "old", "1/0/2024", None)], None);
      var (t', q) := Add(t, text, today, false);
      q.None? && |t'.rows| == 2 && t'.rows[1].id == 0 && t'.rows[1].text == text
  {
  }

  /** Looking up the id of a row appended under a fresh id finds that row. */
  lemma {:induction false} FindByIdAppend(rows: seq<Row>, row: Row)
    requires !HasId(rows, row.id)
    ensures FindById(rows + [row], row.id) == Some(row)
  {
    if rows != [] {
      assert (rows + [row])[1..] == rows[1..] + [row];
      assert !HasId(rows[1..], row.id) by {
        forall i | 0 <= i < |rows[1..]| ensures rows[1..][i].id != row.id {
          assert rows[1..][i] == rows[i + 1];
        }
      }
      FindByIdAppend(rows[1..], row);
    }
  }

  /** After a delete that did not throw, the id is not found, whatever the table held. */
  lemma DeleteThenGet(t: Table, id: int)
    ensures QuoteById(Delete(t, id, false).0, Int(id)).None?
  {
  }

  /** Deleting twice is deleting once, and the second delete still reports success. */
  lemma {:induction false} DeleteIdempotent(t: Table, id: int)
    ensures Delete(Delete(t, id, false).0, id, false) == Delete(t, id, false)
  {
    WithoutAbsent(Without(t.rows, id), id);
  }

  /** Filtering out an id that no row has leaves the rows as they were. */
  lemma {:induction false} WithoutAbsent(rows: seq<Row>, id: int)
    requires forall x :: x in rows ==> x.id != id
    ensures Without(rows, id) == rows
  {
    if rows != [] {
      WithoutAbsent(rows[1..], id);
      assert [rows[0]] + rows[1..] == rows;
    }
  }

  /** Editing an existing quote and reading it back gives the new text with the id, date and
      alias it had before. */
  lemma EditThenGet(t: Table, id: int, text: string)
    requires WellFormed(t) && HasId(t.rows, id)
    ensures var old_ := QuoteById(t, Int(id)).value;
      Edit(t, id, text, false).1 == Some(old_.(quote := text))
  {
    var i :| 0 <= i < |t.rows| && t.rows[i].id == id;
    var t' := Edit(t, id, text, false).0;
    SameIdsWellFormed(t, t');
    UniqueIdFound(t, i);
    UniqueIdFound(t', i);
  }

  /** In a well-formed table, the row at index `i` is the one found under its id. */
  lemma UniqueIdFound(t: Table, i: int)
    requires WellFormed(t) && 0 <= i < |t.rows|
    ensures FindById(t.rows, t.rows[i].id) == Some(t.rows[i])
  {
    var r := FindById(t.rows, t.rows[i].id).value;
    var j :| 0 <= j < |t.rows| && t.rows[j] == r;
    assert i == j;
  }

  /** Editing an id that some row has yields a quote with that id and the new text, in any
      table. */
  lemma EditReturnsNewText(t: Table, id: int, text: string)
    requires HasId(t.rows, id)
    ensures var q := Edit(t, id, text, false).1;
      q.Some? && q.value.id == id && q.value.quote == text
  {
    var t' := Edit(t, id, text, false).0;
    var i :| 0 <= i < |t.rows| && t.rows[i].id == id;
    assert t'.rows[i].id == id;
    var q := QuoteById(t', Int(id)).value;
    var r :| r in t'.rows && q == ToQuote(r);
    var j :| 0 <= j < |t'.rows| && t'.rows[j] == r;
  }

  /** Editing an id that no row has changes nothing and reports `undefined`. */
  lemma EditAbsent(t: Table, id: int, text: string)
    requires !HasId(t.rows, id)
    ensures Edit(t, id, text, false) == (t, None)
  {
    var t' := Edit(t, id, text, false).0;
    assert t'.rows == t.rows;
  }

  /** Setting an alias on an existing quote that no other row carries makes that quote the
      answer, and it is the quote `getQuoteById` gives afterwards. */
  lemma SetAliasThenGet(t: Table, alias: string, id: int)
    requires WellFormed(t) && HasId(t.rows, id)
    requires forall x :: x in t.rows && x.id != id ==> x.alias != Some(alias)
    ensures var (t', q) := SetAlias(t, alias, Int(id));
      q.Some? && q.value.id == id && q == QuoteById(t', Int(id)) && q.value.alias == Some(alias)
  {
    var i :| 0 <= i < |t.rows| && t.rows[i].id == id;
    var t' := SetAlias(t, alias, Int(id)).0;
    AliasOnlyOnTarget(t, alias, id, i);
    var r := FindByAlias(t'.rows, alias).value;
    SameIdSameRow(t', r, i);
    UniqueIdFound(t', i);
  }

  /** After the update the target row carries the alias, no other row does, and the table is
      still well-formed. */
  lemma AliasOnlyOnTarget(t: Table, alias: string, id: int, i: int)
    requires WellFormed(t) && 0 <= i < |t.rows| && t.rows[i].id == id
    requires forall x :: x in t.rows && x.id != id ==> x.alias != Some(alias)
    ensures var t' := SetAlias(t, alias, Int(id)).0;
      && WellFormed(t')
      && t'.rows[i].id == id && t'.rows[i].alias == Some(alias)
      && forall x :: x in t'.rows && x.id != id ==> x.alias != Some(alias)
  {
    var t' := SetAlias(t, alias, Int(id)).0;
    SameIdsWellFormed(t, t');
    forall x | x in t'.rows && x.id != id ensures x.alias != Some(alias) {
      var j :| 0 <= j < |t'.rows| && t'.rows[j] == x;
      assert t.rows[j] in t.rows;
    }
  }

  /** A table whose rows carry the ids of a well-formed table, in the same order, is
      well-formed. */
  lemma SameIdsWellFormed(t: Table, t': Table)
    requires WellFormed(t) && |t'.rows| == |t.rows|
    requires forall i :: 0 <= i < |t.rows| ==> t'.rows[i].id == t.rows[i].id
    ensures WellFormed(t')
  {
  }

  /** In a well-formed table a row with the id of row `i` is row `i`. */
  lemma SameIdSameRow(t: Table, r: Row, i: int)
    requires WellFormed(t) && 0 <= i < |t.rows| && r in t.rows && r.id == t.rows[i].id
    ensures r == t.rows[i]
  {
    var k :| 0 <= k < |t.rows| && t.rows[k] == r;
    assert k == i;
  }

  /** When a row already carries the alias and neither it nor any row before it has the id,
      `aliasQuote` answers with that row, not the one it just changed: the answer does not tell
      which row holds the alias. */
  lemma SetAliasCollision(t: Table, alias: string, id: int, j: int)
    requires 0 <= j < |t.rows| && t.rows[j].alias == Some(alias)
    requires forall k :: 0 <= k < j ==> t.rows[k].alias != Some(alias) && t.rows[k].id != id
    ensures SetAlias(t, alias, Int(id)).1 == Some(ToQuote(t.rows[j]))
  {
    var rows := SetAlias(t, alias, Int(id)).0.rows;
    assert rows[j] == t.rows[j];
    var r := FindByAlias(rows, alias).value;
    var i :| 0 <= i < |rows| && rows[i] == r && forall k :: 0 <= k < i ==> rows[k].alias != Some(alias);
    assert i == j;
  }

  /** An alias request for an id no row has changes nothing and answers with whatever row
      already carried the alias. */
  lemma SetAliasAbsent(t: Table, alias: string, key: Num)
    requires key.NaN? || !HasId(t.rows, key.value)
    ensures SetAlias(t, alias, key) == (t, QuoteByAlias(t, alias))
  {
    assert SetAlias(t, alias, key).0.rows == t.rows;
  }

  /** In a well-formed table the latest quote is the last row in scan order, so right after an
      add it is the quote just added (with the column default as alias). */
  lemma LatestAfterAdd(t: Table, text: string, today: Today)
    requires WellFormed(t)
    ensures var (t', q) := Add(t, text, today, false);
      LatestQuote(t') == Some(Quote(q.value.id, text, DateString(today), t.aliasDefault))
  {
    var (t', q) := Add(t, text, today, false);
    var n := |t'.rows|;
    assert forall x :: x in t'.rows ==> x.id <= t'.rows[n - 1].id;
    assert MaxId(t'.rows) == t'.rows[n - 1].id;
    UniqueIdFound(t', n - 1);
  }

  /** Search finds exactly the stored quotes whose text contains the lower-cased term. */
  lemma SearchExact(t: Table, s: string, q: Quote)
    ensures q in FoundQuotes(SearchQuote(t, s)) <==>
      exists r :: r in t.rows && Includes(r.text, Lower(s)) && q == ToQuote(r)
  {
    var m := Matching(t.rows, Lower(s));
    var qs := FoundQuotes(SearchQuote(t, s));
    if q in qs {
      var i :| 0 <= i < |qs| && qs[i] == q;
      assert m[i] in m;
    }
    if exists r :: r in t.rows && Includes(r.text, Lower(s)) && q == ToQuote(r) {
      var r :| r in t.rows && Includes(r.text, Lower(s)) && q == ToQuote(r);
      var i :| 0 <= i < |m| && m[i] == r;
      assert qs[i] == q;
    }
  }

  /** The three shapes of a search result follow the number of matching rows. */
  lemma SearchCardinality(t: Table, s: string)
    ensures var n := |Matching(t.rows, Lower(s))|;
      && (SearchQuote(t, s).NoMatch? <==> n == 0)
      && (SearchQuote(t, s).Single? <==> n == 1)
      && (SearchQuote(t, s).Multiple? <==> n >= 2)
  {
  }

  /** Only the term is lower-cased: a stored text without lower-case ASCII letters is never found
      by a term that holds an ASCII letter, even the text itself. */
  lemma SearchMissesCapitals(t: Table, s: string, r: Row)
    requires r in t.rows
    requires exists k :: 0 <= k < |s| && (IsUpperAscii(s[k]) || IsLowerAscii(s[k]))
    requires forall k :: 0 <= k < |r.text| ==> !IsLowerAscii(r.text[k])
    ensures ToQuote(r) !in FoundQuotes(SearchQuote(t, s)) || exists x :: x in t.rows && x != r && ToQuote(x) == ToQuote(r)
  {
    var low := Lower(s);
    var k :| 0 <= k < |s| && (IsUpperAscii(s[k]) || IsLowerAscii(s[k]));
    LowerHasNoCapitals(s);
    assert IsLowerAscii(low[k]);
    assert !Includes(r.text, low) by {
      forall i | 0 <= i && i + |low| <= |r.text| ensures !OccursAt(r.text, low, i) {
        assert r.text[i..i + |low|][k] == r.text[i + k];
        assert !IsLowerAscii(r.text[i + k]);
      }
    }
    SearchExact(t, s, ToQuote(r));
  }

  // ---------------------------------------------------------------------------
  // The shared table, updated in place

  /** The module-level database handle of quotes.ts: one table that the four writing
      operations change in place. */
  class QuoteStore {
    var table: Table

    ghost predicate Valid()
      reads this
    {
      WellFormed(table)
    }

    /** The table the database file already holds when the module opens it; a rowid scan
        yields positive, ascending ids, so any such table is well-formed. */
    constructor (init: Table)
      requires WellFormed(init)
      ensures Valid() && table == init
    {
      table := init;
    }

    method AddQuote(text: string, today: Today, insertThrows: bool) returns (q: Option<Quote>)
      requires Valid()
      modifies this
      ensures Valid()
      ensures (table, q) == Add(old(table), text, today, insertThrows)
      ensures q.Some? ==> q.value.id > 0 && !HasId(old(table).rows, q.value.id)
      ensures q.None? <==> insertThrows
    {
      var res := Add(table, text, today, insertThrows);
      table := res.0;
      q := res.1;
    }

    method DeleteQuote(id: int, deleteThrows: bool) returns (ok: bool)
      requires Valid()
      modifies this
      ensures Valid()
      ensures (table, ok) == Delete(old(table), id, deleteThrows)
      ensures ok == !deleteThrows
      ensures ok ==> !HasId(table.rows, id)
    {
      var res := Delete(table, id, deleteThrows);
      table := res.0;
      ok := res.1;
    }

    method EditQuote(id: int, text: string, updateThrows: bool) returns (q: Option<Quote>)
      requires Valid()
      modifies this
      ensures Valid()
      ensures (table, q) == Edit(old(table), id, text, updateThrows)
      ensures q.Some? ==> q.value.quote == text && q.value.id == id
    {
      var res := Edit(table, id, text, updateThrows);
      table := res.0;
      q := res.1;
      if q.Some? {
        var i :| 0 <= i < |table.rows| && table.rows[i].id == id;
        UniqueIdFound(table, i);
      }
    }

    method AliasQuote(alias: string, key: Num) returns (q: Option<Quote>)
      requires Valid()
      modifies this
      ensures Valid()
      ensures (table, q) == SetAlias(old(table), alias, key)
      ensures q.Some? ==> q.value.alias == Some(alias)
    {
      var res := SetAlias(table, alias, key);
      table := res.0;
      q := res.1;
    }
  }
}
