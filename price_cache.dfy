/** The StockPrice table: the price lookup of `get_stock_price`, the parse of the
    exchange listing and the insert-or-update of one cache row per listed symbol
    that `get_nasdaq_stocks` performs. */
module PriceCache {
  import opened Seqs
  import opened Text

  /** A StockPrice row. */
  datatype StockPrice = StockPrice(symbol: string, name: string, exchange: string, assetType: string, status: string, price: real)

  /** The value `random.randint(1, 100)` draws. */
  type Draw = d: int | 1 <= d <= 100 witness 1

  /** What the quote provider gives for one symbol: a parsed price on a 200
      response, otherwise the random placeholder drawn in its place. */
  datatype Quote = Quoted(price: real) | Unavailable(draw: Draw)

  /** The listing provider's answer: the body of a 200 response, or any other status. */
  datatype ListingResponse = ListingOk(text: string) | ListingFailed

  /** The row `StockPrice.query.filter_by(symbol=symbol).first()` finds: the
      lowest-indexed row for the symbol, if any. */
  function FindStock(rows: seq<StockPrice>, symbol: string): (r: Option<nat>)
    ensures r.Some? ==> r.value < |rows| && rows[r.value].symbol == symbol
    ensures r.Some? ==> forall j :: 0 <= j < r.value ==> rows[j].symbol != symbol
    ensures r.None? ==> forall i :: 0 <= i < |rows| ==> rows[i].symbol != symbol
  {
    FirstMatch(rows, (row: StockPrice) => row.symbol == symbol)
  }

  /** The price the provider's answer stands for. */
  function SourcePrice(q: Quote): real {
    match q
    case Quoted(p) => p
    case Unavailable(d) => d as real
  }

  /** `get_stock_price`: a cached row wins and the provider is not consulted; on a
      miss the quoted price, or, when the quote failed, a whole number from 1 to 100.
      It always yields a price, so the callers' `None` checks never fire. */
  function PriceOf(rows: seq<StockPrice>, symbol: string, quote: Quote): (price: real)
    ensures FindStock(rows, symbol).Some? ==> price == rows[FindStock(rows, symbol).value].price
    ensures FindStock(rows, symbol).None? && quote.Quoted? ==> price == quote.price
    ensures FindStock(rows, symbol).None? && quote.Unavailable? ==>
      1.0 <= price <= 100.0 && price == price.Floor as real
  {
    match FindStock(rows, symbol)
    case Some(i) => rows[i].price
    case None => SourcePrice(quote)
  }

  /** A cache hit gives the same price whatever the provider would have answered. */
  lemma PriceOfIgnoresSourceOnHit(rows: seq<StockPrice>, symbol: string, q1: Quote, q2: Quote)
    requires exists i :: 0 <= i < |rows| && rows[i].symbol == symbol
    ensures PriceOf(rows, symbol, q1) == PriceOf(rows, symbol, q2)
  {
    var i :| 0 <= i < |rows| && rows[i].symbol == symbol;
    assert FindStock(rows, symbol).Some?;
  }

  // Keys the upsert reads from a parsed record. The status key differs between the
  // two branches: the insert branch reads `status\r` (the last header of a listing
  // with CRLF line ends), the update branch `"status\r"` with literal quote marks.
  const SymbolKey := "symbol"
  const NameKey := "name"
  const ExchangeKey := "exchange"
  const AssetTypeKey := "assetType"
  const InsertStatusKey := "status\r"
  const UpdateStatusKey := "\"status\r\""

  /** The first of `keys` missing from `rec`: the lookup that raises `KeyError`. */
  function MissingKey(rec: Record, keys: seq<string>): (r: Option<string>)
    ensures r.Some? ==> r.value in keys && r.value !in rec
    ensures r.Some? ==> exists i :: 0 <= i < |keys| && keys[i] == r.value && forall j :: 0 <= j < i ==> keys[j] in rec
    ensures r.None? ==> forall k :: k in keys ==> k in rec
  {
    if |keys| == 0 then None
    else if keys[0] !in rec then Some(keys[0])
    else
      var rest := MissingKey(rec, keys[1..]);
      assert rest.Some? ==> exists i :: 0 <= i < |keys| && keys[i] == rest.value && forall j :: 0 <= j < i ==> keys[j] in rec by {
        if rest.Some? {
          var i :| 0 <= i < |keys| - 1 && keys[1..][i] == rest.value && forall j :: 0 <= j < i ==> keys[1..][j] in rec;
          assert forall j :: 0 <= j < i + 1 ==> keys[j] in rec by {
            forall j | 0 <= j < i + 1 ensures keys[j] in rec {
              if j > 0 {
                assert keys[j] == keys[1..][j - 1];
              }
            }
          }
          assert keys[i + 1] == rest.value;
        }
      }
      rest
  }

  /** The listing text as `get_nasdaq_stocks` reads it: stripped, split into lines,
      the first line the comma-separated headers, each later line one record. */
  function ListingLines(text: string): (lines: seq<string>)
    ensures |lines| >= 1 && Join(lines, '\n') == Strip(text)
    ensures forall i :: 0 <= i < |lines| ==> '\n' !in lines[i]
  {
    JoinSplit(Strip(text), '\n');
    Split(Strip(text), '\n')
  }

  /** The column names: the first line cut at the commas. */
  function ListingHeaders(text: string): (headers: seq<string>)
    ensures |headers| >= 1 && Join(headers, ',') == ListingLines(text)[0]
    ensures forall i :: 0 <= i < |headers| ==> ',' !in headers[i]
  {
    JoinSplit(ListingLines(text)[0], ',');
    Split(ListingLines(text)[0], ',')
  }

  /** One data line as a record: `dict(zip(headers, line.split(',')))`. A line
      with at least as many columns as there are headers has every header as a key. */
  function ParseRecord(headers: seq<string>, line: string): (rec: Record)
    ensures |Split(line, ',')| >= |headers| ==> forall i :: 0 <= i < |headers| ==> headers[i] in rec
  {
    Zip(headers, Split(line, ','))
  }

  /** The records of the data lines, in order: the list the loop builds by appending. */
  function ParseRecords(headers: seq<string>, rows: seq<string>): (recs: seq<Record>)
    ensures |recs| == |rows|
  {
    if |rows| == 0 then [] else ParseRecords(headers, rows[..|rows| - 1]) + [ParseRecord(headers, rows[|rows| - 1])]
  }

  /** One more data line adds its record at the end. */
  lemma ParseRecordsSnoc(headers: seq<string>, rows: seq<string>, line: string)
    ensures ParseRecords(headers, rows + [line]) == ParseRecords(headers, rows) + [ParseRecord(headers, line)]
  {
    assert (rows + [line])[..|rows|] == rows;
  }

  /** The records of a listing: one per line after the header line. */
  function ParseListing(text: string): (recs: seq<Record>)
    ensures |recs| == |ListingLines(text)| - 1
  {
    ParseRecords(ListingHeaders(text), ListingLines(text)[1..])
  }

  /** Record `i` is parsed from data line `i`. */
  lemma {:induction false} ParseRecordsAt(headers: seq<string>, rows: seq<string>, i: nat)
    requires i < |rows|
    ensures ParseRecords(headers, rows)[i] == ParseRecord(headers, rows[i])
    decreases |rows|
  {
    if i < |rows| - 1 {
      ParseRecordsAt(headers, rows[..|rows| - 1], i);
    }
  }

  /** The first `j` records are the records of the first `j` data lines. */
  lemma {:induction false} ParseRecordsPrefix(headers: seq<string>, rows: seq<string>, j: nat)
    requires j <= |rows|
    ensures ParseRecords(headers, rows)[..j] == ParseRecords(headers, rows[..j])
    decreases |rows|
  {
    if j < |rows| {
      var init := rows[..|rows| - 1];
      ParseRecordsPrefix(headers, init, j);
      assert init[..j] == rows[..j];
      assert ParseRecords(headers, rows)[..j] == ParseRecords(headers, init)[..j];
    } else {
      assert rows[..j] == rows;
    }
  }

  /** One record per line after the header: as many as there are line breaks in the stripped text. */
  lemma ParseListingCount(text: string)
    ensures |ParseListing(text)| == multiset(Strip(text))['\n']
  {
    SplitCount(Strip(text), '\n');
  }

  /** Record `i` maps header `j` to column `j` of its line, for every `j` below
      both lengths whose header does not reappear further on. */
  lemma ParseListingField(text: string, i: nat, j: nat)
    requires i + 1 < |ListingLines(text)|
    requires var cols := Split(ListingLines(text)[i + 1], ',');
      var headers := ListingHeaders(text);
      j < |headers| && j < |cols| && forall k :: j < k < |headers| && k < |cols| ==> headers[k] != headers[j]
    ensures i < |ParseListing(text)|
    ensures var cols := Split(ListingLines(text)[i + 1], ',');
      ListingHeaders(text)[j] in ParseListing(text)[i] && ParseListing(text)[i][ListingHeaders(text)[j]] == cols[j]
  {
    var lines := ListingLines(text);
    ParseRecordsAt(ListingHeaders(text), lines[1..], i);
    assert lines[1..][i] == lines[i + 1];
    ZipAt(ListingHeaders(text), Split(lines[i + 1], ','), j);
  }

  /** The cache after the upserts done so far, and the key whose lookup failed, if one did. */
  datatype Upserted = Upserted(rows: seq<StockPrice>, missing: Option<string>)

  /** One pass of the loop body of `get_nasdaq_stocks` (after the record is parsed):
      look up the symbol, fetch its price through the cache, then overwrite the
      existing row or insert a new one. A missing key aborts before the commit,
      leaving the rows as they were. */
  function Upsert(rows: seq<StockPrice>, rec: Record, quote: string -> Quote): (r: Upserted)
    ensures r.missing.Some? ==> r.rows == rows && r.missing.value !in rec
    ensures r.missing.Some? ==> r.missing.value in [SymbolKey, NameKey, ExchangeKey, AssetTypeKey, InsertStatusKey, UpdateStatusKey]
    ensures r.missing.None? ==> SymbolKey in rec && |rows| <= |r.rows| <= |rows| + 1
  {
    if SymbolKey !in rec then Upserted(rows, Some(SymbolKey))
    else
      var symbol := rec[SymbolKey];
      var price := PriceOf(rows, symbol, quote(symbol));
      match FindStock(rows, symbol)
      case Some(i) =>
        (match MissingKey(rec, [NameKey, ExchangeKey, AssetTypeKey, UpdateStatusKey])
         case Some(k) => Upserted(rows, Some(k))
         case None =>
           var row := rows[i].(price := price, name := rec[NameKey], exchange := rec[ExchangeKey],
                               assetType := rec[AssetTypeKey], status := rec[UpdateStatusKey]);
           Upserted(rows[i := row], None))
      case None =>
        match MissingKey(rec, [NameKey, ExchangeKey, AssetTypeKey, InsertStatusKey])
        case Some(k) => Upserted(rows, Some(k))
        case None =>
          var row := StockPrice(symbol, rec[NameKey], rec[ExchangeKey], rec[AssetTypeKey], rec[InsertStatusKey], price);
          Upserted(rows + [row], None)
  }

  /** The loop over all records, stopping at the first failed lookup. */
  function UpsertAll(rows: seq<StockPrice>, recs: seq<Record>, quote: string -> Quote): (r: Upserted)
    ensures |rows| <= |r.rows| <= |rows| + |recs|
  {
    if |recs| == 0 then Upserted(rows, None)
    else
      var done := UpsertAll(rows, recs[..|recs| - 1], quote);
      if done.missing.Some? then done else Upsert(done.rows, recs[|recs| - 1], quote)
  }

  /** What a successful upsert writes. When the symbol is cached, that row
      takes the record's name, exchange, asset type and `"status\r"` and keeps
      its price, which the cache lookup returned; every other row is unchanged.
      Otherwise one row is appended, built from the record with `status\r` and the
      provider's price. */
  lemma UpsertRow(rows: seq<StockPrice>, rec: Record, quote: string -> Quote)
    requires Upsert(rows, rec, quote).missing.None?
    ensures SymbolKey in rec && NameKey in rec && ExchangeKey in rec && AssetTypeKey in rec
    ensures var s := rec[SymbolKey];
      match FindStock(rows, s)
      case Some(i) =>
        && UpdateStatusKey in rec
        && Upsert(rows, rec, quote).rows
          == rows[i := StockPrice(s, rec[NameKey], rec[ExchangeKey], rec[AssetTypeKey], rec[UpdateStatusKey], rows[i].price)]
      case None =>
        && InsertStatusKey in rec
        && Upsert(rows, rec, quote).rows
          == rows + [StockPrice(s, rec[NameKey], rec[ExchangeKey], rec[AssetTypeKey], rec[InsertStatusKey], SourcePrice(quote(s)))]
  {
  }

  /** One more record: the loop goes on from where the previous records left it. */
  lemma UpsertAllSnoc(rows: seq<StockPrice>, recs: seq<Record>, rec: Record, quote: string -> Quote)
    ensures var done := UpsertAll(rows, recs, quote);
      UpsertAll(rows, recs + [rec], quote) == if done.missing.Some? then done else Upsert(done.rows, rec, quote)
  {
    assert (recs + [rec])[..|recs|] == recs;
  }

  /** Once a lookup has failed, the later records change nothing: the rows are
      those committed before the failing record, and the failing key is kept. */
  lemma {:induction false} UpsertAllStops(rows: seq<StockPrice>, recs: seq<Record>, j: nat, quote: string -> Quote)
    requires j <= |recs| && UpsertAll(rows, recs[..j], quote).missing.Some?
    ensures UpsertAll(rows, recs, quote) == UpsertAll(rows, recs[..j], quote)
    decreases |recs|
  {
    if j < |recs| {
      var init := recs[..|recs| - 1];
      assert init[..j] == recs[..j];
      UpsertAllStops(rows, init, j, quote);
    } else {
      assert recs[..j] == recs;
    }
  }

  /** Where the loop over the data lines stops: after the last line, or after the
      line whose record failed. Either way the cache is the fold over all records,
      and on success the records built are those of every line. */
  lemma LoadComplete(headers: seq<string>, data: seq<string>, n: nat, stocks: seq<Record>,
                     rows: seq<StockPrice>, missing: Option<string>, quote: string -> Quote)
    requires n <= |data|
    requires stocks == ParseRecords(headers, data[..n])
    requires UpsertAll([], stocks, quote) == Upserted(rows, missing)
    requires n == |data| || missing.Some?
    ensures UpsertAll([], ParseRecords(headers, data), quote) == Upserted(rows, missing)
    ensures missing.None? ==> stocks == ParseRecords(headers, data)
  {
    if missing.Some? {
      ParseRecordsPrefix(headers, data, n);
      UpsertAllStops([], ParseRecords(headers, data), n, quote);
    } else {
      assert data[..n] == data;
    }
  }

  /** No two rows share a symbol. */
  predicate DistinctSymbols(rows: seq<StockPrice>) {
    forall i, j :: 0 <= i < j < |rows| ==> rows[i].symbol != rows[j].symbol
  }

  /** Every row holds the price the provider gave for its symbol. */
  predicate PricesFromSource(rows: seq<StockPrice>, quote: string -> Quote) {
    forall i :: 0 <= i < |rows| ==> rows[i].price == SourcePrice(quote(rows[i].symbol))
  }

  /** One upsert keeps the symbols distinct and every price the provider's. */
  lemma UpsertPreserves(rows: seq<StockPrice>, rec: Record, quote: string -> Quote)
    requires DistinctSymbols(rows) && PricesFromSource(rows, quote)
    ensures DistinctSymbols(Upsert(rows, rec, quote).rows)
    ensures PricesFromSource(Upsert(rows, rec, quote).rows, quote)
  {
  }

  /** The listing refresh never creates two rows for one symbol, and every row it
      writes holds the provider's price for that symbol: an update re-reads the
      cached price, so it never changes a price the refresh inserted. */
  lemma {:induction false} UpsertAllPreserves(rows: seq<StockPrice>, recs: seq<Record>, quote: string -> Quote)
    requires DistinctSymbols(rows) && PricesFromSource(rows, quote)
    ensures DistinctSymbols(UpsertAll(rows, recs, quote).rows)
    ensures PricesFromSource(UpsertAll(rows, recs, quote).rows, quote)
    decreases |recs|
  {
    if |recs| > 0 {
      UpsertAllPreserves(rows, recs[..|recs| - 1], quote);
      var done := UpsertAll(rows, recs[..|recs| - 1], quote);
      if done.missing.None? {
        UpsertPreserves(done.rows, recs[|recs| - 1], quote);
      }
    }
  }

  /** The symbols of the rows. */
  function Symbols(rows: seq<StockPrice>): set<string> {
    set i | 0 <= i < |rows| :: rows[i].symbol
  }

  /** A successful upsert adds the record's symbol to the cached symbols and no other. */
  lemma UpsertSymbols(rows: seq<StockPrice>, rec: Record, quote: string -> Quote)
    requires Upsert(rows, rec, quote).missing.None?
    ensures SymbolKey in rec
    ensures Symbols(Upsert(rows, rec, quote).rows) == Symbols(rows) + {rec[SymbolKey]}
  {
    var after := Upsert(rows, rec, quote).rows;
    match FindStock(rows, rec[SymbolKey])
    case Some(k) =>
      assert forall j :: 0 <= j < |after| ==> after[j].symbol == rows[j].symbol;
    case None =>
      assert after[|after| - 1].symbol == rec[SymbolKey];
      assert forall j :: 0 <= j < |rows| ==> after[j] == rows[j];
  }

  /** The symbols of records that all carry one. */
  function RecordSymbols(recs: seq<Record>): set<string>
    requires forall i :: 0 <= i < |recs| ==> SymbolKey in recs[i]
  {
    set i | 0 <= i < |recs| :: recs[i][SymbolKey]
  }

  lemma RecordSymbolsSnoc(recs: seq<Record>)
    requires |recs| > 0 && forall i :: 0 <= i < |recs| ==> SymbolKey in recs[i]
    ensures RecordSymbols(recs) == RecordSymbols(recs[..|recs| - 1]) + {recs[|recs| - 1][SymbolKey]}
  {
    var init := recs[..|recs| - 1];
    forall x | x in RecordSymbols(recs) ensures x in RecordSymbols(init) + {recs[|recs| - 1][SymbolKey]} {
      var i :| 0 <= i < |recs| && recs[i][SymbolKey] == x;
      if i < |init| {
        assert init[i] == recs[i];
      }
    }
    forall x | x in RecordSymbols(init) ensures x in RecordSymbols(recs) {
      var i :| 0 <= i < |init| && init[i][SymbolKey] == x;
      assert recs[i] == init[i];
    }
  }

  /** Every record has a symbol when the earlier ones and the last one do. */
  lemma KeyedSnoc(recs: seq<Record>, init: seq<Record>, rec: Record)
    requires recs == init + [rec] && SymbolKey in rec
    requires forall i :: 0 <= i < |init| ==> SymbolKey in init[i]
    ensures forall i :: 0 <= i < |recs| ==> SymbolKey in recs[i]
  {
    forall i | 0 <= i < |init| ensures SymbolKey in recs[i] {
      assert recs[i] == init[i];
    }
  }

  /** When no lookup fails, every record had a symbol. */
  lemma {:induction false} UpsertAllKeys(rows: seq<StockPrice>, recs: seq<Record>, quote: string -> Quote)
    requires UpsertAll(rows, recs, quote).missing.None?
    ensures forall i :: 0 <= i < |recs| ==> SymbolKey in recs[i]
    decreases |recs|
  {
    if |recs| > 0 {
      var init := recs[..|recs| - 1];
      var done := UpsertAll(rows, init, quote);
      assert done.missing.None?;
      UpsertAllKeys(rows, init, quote);
      FrontLast(recs);
      KeyedSnoc(recs, init, recs[|recs| - 1]);
    }
  }

  /** When no lookup fails, the refreshed cache holds exactly the symbols already
      cached plus those of the records. */
  lemma {:induction false} UpsertAllSymbols(rows: seq<StockPrice>, recs: seq<Record>, quote: string -> Quote)
    requires UpsertAll(rows, recs, quote).missing.None?
    ensures forall i :: 0 <= i < |recs| ==> SymbolKey in recs[i]
    ensures Symbols(UpsertAll(rows, recs, quote).rows) == Symbols(rows) + RecordSymbols(recs)
    decreases |recs|
  {
    UpsertAllKeys(rows, recs, quote);
    if |recs| > 0 {
      var init := recs[..|recs| - 1];
      var done := UpsertAll(rows, init, quote);
      assert done.missing.None?;
      UpsertAllSymbols(rows, init, quote);
      UpsertSymbols(done.rows, recs[|recs| - 1], quote);
      RecordSymbolsSnoc(recs);
    }
  }

  /** A refresh into an empty cache, followed by a price lookup for any listed
      symbol: the lookup returns the row's price, which is what the provider
      gave for that symbol, whatever a later quote would say. */
  lemma RefreshThenPrice(recs: seq<Record>, quote: string -> Quote, symbol: string, later: Quote)
    requires symbol in Symbols(UpsertAll([], recs, quote).rows)
    ensures PriceOf(UpsertAll([], recs, quote).rows, symbol, later) == SourcePrice(quote(symbol))
  {
    UpsertAllPreserves([], recs, quote);
    var rows := UpsertAll([], recs, quote).rows;
    var i :| 0 <= i < |rows| && rows[i].symbol == symbol;
    assert FindStock(rows, symbol).Some?;
  }
}
