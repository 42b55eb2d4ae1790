# Stocker ledger model

A Dafny model of the ledger behind the Stocker paper-trading web application
(`app.py`): the user balances, the buy lots held in the `Transaction` table, the
trade and cash histories, and the `StockPrice` cache that the NASDAQ listing
fills. The request handlers that change these tables are methods of one class,
`App.Store`, whose fields are the five tables:

- `users` holds User rows, indexed by user id.
- `lots` holds Transaction rows.
- `trades` holds StockTransactionHistory rows.
- `cashLog` holds TransactionHistory rows.
- `prices` holds StockPrice rows.

Each table is a sequence in insertion order. The unordered `.first()` queries are
taken to return the lowest matching index (`Seqs.FirstMatch`); see "## Left out".
Each handler is modelled as one atomic step.

The pure parts are functions with lemmas about them:

- the share accounting over lots (`Ledger`);
- the cached price lookup and the listing parse-and-upsert (`PriceCache`);
- Python's `str.strip`, `str.split` and `dict(zip(...))` (`Text`).

The outside world enters as parameters:

- The quote provider's answer for one symbol is a `Quote`. It is either the
  parsed price or, on a failed request, the value `random.randint(1, 100)` drew.
- The listing provider's answer is a `ListingResponse`.
- Password hashing is done by the caller: `Register` receives the hash.

Modules:

- `Seqs` (seqs.dfy): `Option` and the first-match lookup.
- `Text` (text.dfy): strip, split, join and zip, with their round trips.
- `Ledger` (ledger.dfy): held shares, the sufficiency check, and the sell
  branch's consumption of the first buy lot.
- `PriceCache` (price_cache.dfy): the price lookup, the listing parse, and the
  upsert loop as a fold.
- `App` (app.dfy): the `Store` class with its handlers, plus three worked
  scenarios (`BuyScenario`, `SellScenario`, `WithdrawScenario`).

Notable behaviours of the code that the model keeps and states:

- A sale checks the user's total buy shares but takes them only from the
  first buy lot. That lot is deleted once it reaches zero or fewer, so selling
  more than the first lot holds leaves the user holding more than the holding
  minus the amount sold (`Ledger.SellShortfall`). For example, with two lots
  of 3, selling 5 passes the check and leaves 3 shares held, not 1
  (`Ledger.SellShortfallExample`).
- Sell rows are appended to the same table as buy lots and never count as
  holdings.
- Shares and amounts are not sign-checked, so the balance stays non-negative
  only when the inputs are non-negative. Two inputs drive it below zero:
  - a negative deposit;
  - a sale of a negative count, which passes the share check even with no lots
    and debits the seller (`App.NegativeSellScenario`).
- A buy of 0 shares, or of fewer, is accepted and leaves a buy lot holding 0 or
  fewer shares (`App.ZeroBuyScenario`). Every buy lot stays positive only while
  every buy is of a positive count; sales keep it so.
- The listing loop reads the status column under two different keys:
  - the insert branch reads `status\r`;
  - the update branch reads `"status\r"`, with literal quote marks.
  Within one refresh, a symbol listed twice therefore aborts the refresh with a
  `KeyError` on the quoted key, unless the header line happens to contain that
  key. Rows committed before the failing record stay in the cache.
- Within one refresh, a symbol's price is fetched once: later records hit the
  cache.

## Model

| member | source | states |
|---|---|---|
| `Seqs.FirstMatch` | app.py:116 | The index `.first()` returns is in range and satisfies the filter, and no earlier row does; no index means no row satisfies it. |
| `Text.StripStart` | app.py:138 | The result is a suffix of the input, everything cut off is whitespace, and it does not start with whitespace. |
| `Text.StripEnd` | app.py:138 | The result is a prefix of the input, everything cut off is whitespace, and it does not end with whitespace. |
| `Text.Strip` | app.py:138 | `strip()` gives an infix flanked only by whitespace that neither starts nor ends with whitespace. |
| `Text.Split` | app.py:138-141 | `split(sep)` gives at least one piece and no piece contains the separator. |
| `Text.JoinSplit` | app.py:138-141 | Joining the pieces of a split with the separator gives back the string. |
| `Text.SplitJoin` | app.py:138-141 | Splitting the join of separator-free pieces gives back the pieces. |
| `Text.SplitCount` | app.py:138-140 | A split has exactly one more piece than the string has separators. |
| `Text.Zip` | app.py:142 | `dict(zip(keys, values))` has as keys exactly the keys paired with a value, as far as the shorter list goes. |
| `Text.ZipAt` | app.py:142 | A key that no later pair repeats maps to the value at its own position. |
| `Ledger.TradeValue` | app.py:257-273 | The cost of a buy and the earnings of a sale, `shares * price`, are never negative for a non-negative count at a non-negative price, and are 0 for no shares. |
| `Ledger.HeldShares` | app.py:123-127 | The `SUM(shares)` of the user's buy rows for the symbol, 0 when there are none; with every buy lot positive it is never negative. |
| `Ledger.HasEnoughShares` | app.py:123-127 | Holds exactly when that sum is at least the count asked for; with positive lots any count of 0 or less passes. |
| `Ledger.FirstLot` | app.py:116 | The lowest-indexed buy row of the user for the symbol: it matches, no earlier row matches, and no index means no row matches. |
| `Ledger.ConsumeFirstLot` | app.py:116-120 | The sell branch on the lot table: at most one row goes away and none is added; without a buy lot the table is unchanged. |
| `Ledger.FirstLotShares` | app.py:324-327 | The count `stock_detail` shows is 0 when the user has no buy lot of the symbol, and otherwise the count of the lowest-indexed buy lot: one that matches with no matching row before it. |
| `Ledger.PositiveLotsAppend` | app.py:261-266 | Appending a sell row, or a buy row of a positive count, keeps every buy lot positive. |
| `Ledger.HeldSharesNoLot` | app.py:124-126 | With no buy lot for the user and symbol, the sum is the NULL read as 0. |
| `Ledger.HeldSharesConcat` | app.py:124 | Held shares add up over a concatenation of tables. |
| `Ledger.HeldSharesAppend` | app.py:123-127 | Appending a row adds its shares exactly when it is a buy row of that user and symbol; an appended sell row adds nothing. |
| `Ledger.HeldSharesAround` | app.py:124 | Held shares split around one row into the rows before, that row's contribution and the rows after. |
| `Ledger.ConsumeFirstLotShape` | app.py:116-120 | The sell branch keeps the rows before and after the first buy lot; that lot loses the shares sold, or is deleted when 0 or fewer are left; without a lot nothing changes. |
| `Ledger.ConsumeFirstLotUsersBelow` | app.py:116-120 | The sell branch only updates or deletes a row, so every row still belongs to an existing user. |
| `Ledger.ConsumeFirstLotEffect` | app.py:116-120 | After the sell branch, every user's and symbol's holding changes only by the difference in the one lot it touched. |
| `Ledger.ConsumeFirstLotHeld` | app.py:116-120 | A sale lowers the seller's holding by the smaller of the amount sold and the first lot's shares, and by nothing when there is no lot. |
| `Ledger.ConsumeFirstLotOthers` | app.py:116-120 | A sale leaves the holdings of every other user and every other symbol unchanged. |
| `Ledger.ConsumeFirstLotPositive` | app.py:116-120 | When every buy lot holds a positive count, a sale keeps it so: the lot it touches keeps a positive count or is deleted. |
| `Ledger.SellShortfall` | app.py:116-120 | When the first lot holds fewer shares than are sold, the seller keeps more than the holding minus the amount sold. |
| `Ledger.SellShortfallExample` | app.py:271 | Two lots of 3: selling 5 passes the share check (6 held) yet leaves 3 held, not 1. |
| `Ledger.FirstLotSharesBound` | app.py:324-327 | The share count the detail page shows (the first lot's, or 0) lies between 0 and the total held, when lots are positive. |
| `PriceCache.FindStock` | app.py:92 | The lowest-indexed cached row for the symbol: it matches, no earlier row matches, and no index means no row matches. |
| `PriceCache.PriceOf` | app.py:90-104 | A cached row's price wins. On a miss the quoted price is used; when the quote request failed, a whole number from 1 to 100. |
| `PriceCache.PriceOfIgnoresSourceOnHit` | app.py:92-94 | When the symbol is cached, the price does not depend on what the provider would answer. |
| `PriceCache.MissingKey` | app.py:144-161 | The reported key is the first looked-up key absent from the record, as the `KeyError` of the first failing lookup; no report means all of them are present. |
| `PriceCache.ListingLines` | app.py:138 | The stripped text cut at line breaks: at least one line, no line contains a line break, and joining the lines with line breaks gives back the stripped text. |
| `PriceCache.ListingHeaders` | app.py:139 | The first line cut at commas: at least one column name, none containing a comma, and joining them with commas gives back the line. |
| `PriceCache.ParseRecord` | app.py:141-142 | A data line as `dict(zip(headers, values))`; a line with at least as many columns as headers has every header as a key. |
| `PriceCache.ParseRecords` | app.py:140-143 | The loop appends one record per data line. |
| `PriceCache.ParseRecordsAt` | app.py:140-143 | Record `i` is `dict(zip(headers, ...))` of data line `i`. |
| `PriceCache.ParseRecordsPrefix` | app.py:140-143 | The records built after `j` lines are the first `j` records of the whole listing. |
| `PriceCache.ParseListing` | app.py:138-143 | One record for each line after the header line. |
| `PriceCache.ParseListingCount` | app.py:138-143 | There is one record per line break in the stripped listing. |
| `PriceCache.ParseListingField` | app.py:138-142 | For every line `i + 1` after the header line, record `i` exists and maps header `j` to column `j` of that line, when `j` is below both column counts and that header is not repeated further on. |
| `PriceCache.Upsert` | app.py:144-165 | One loop pass: a failed lookup names a key that is one of the six read and absent from the record, and commits nothing; a success read the symbol and adds at most one row. |
| `PriceCache.UpsertRow` | app.py:144-165 | A successful upsert read the symbol, name, exchange and asset type. A cached symbol's row takes the record's name, exchange, asset type and `"status\r"` and keeps its cached price, and the other rows are unchanged. Otherwise one row is appended from the record, with `status\r` and the provider's price. |
| `PriceCache.UpsertAll` | app.py:140-165 | The loop over the records, stopping at the first failed lookup; it never removes rows and adds at most one per record. |
| `PriceCache.UpsertAllStops` | app.py:140-165 | After a failed key lookup, later records change nothing: the cache is what was committed before the failing record. |
| `PriceCache.LoadComplete` | app.py:140-166 | Wherever the loop stops, after the last line or after a failing record, the cache is the fold over all records; on success the returned list holds the record of every line. |
| `PriceCache.UpsertPreserves` | app.py:144-165 | One upsert keeps the cached symbols distinct and every cached price equal to the provider's price for its symbol. |
| `PriceCache.UpsertAllPreserves` | app.py:140-165 | The whole refresh never creates two rows for one symbol, and every row holds the provider's price. |
| `PriceCache.UpsertSymbols` | app.py:144-165 | A successful upsert adds the record's symbol to the cached symbols and no other. |
| `PriceCache.RecordSymbolsSnoc` | app.py:140-144 | The symbols of the records grow by the last record's symbol. |
| `PriceCache.UpsertAllKeys` | app.py:140-144 | A refresh without a failed lookup read a symbol from every record. |
| `PriceCache.UpsertAllSymbols` | app.py:140-165 | A refresh without failure caches exactly the earlier symbols plus the listed ones. |
| `PriceCache.RefreshThenPrice` | app.py:140-165 | After a refresh into an empty cache, the price of any listed symbol is the provider's price at refresh time, whatever a later quote says. |
| `App.Store.constructor` | app.py:31-33 | A fresh database has all five tables empty and satisfies the store invariant. |
| `App.Store.Register` | app.py:190-206 | A taken username changes nothing. Otherwise exactly one user is appended, with the given hash and balance 0.0, and the other tables are untouched. Usernames stay unique. |
| `App.Store.UpdatePortfolio` | app.py:106-121 | On 'sell', the rows before the first buy lot are kept. That lot loses the shares or is deleted at 0 or fewer. The rows after it are kept, and the holding drops by the smaller amount. Any other action changes nothing. |
| `App.Store.BuyAt` | app.py:256-269 | With `balance >= shares * price`, exactly that cost is debited and one buy lot and one buy history row are appended; the holding grows by `shares` and the balance stays non-negative. Otherwise nothing changes. A buy of a positive count keeps every buy lot positive. |
| `App.Store.RecordSale` | app.py:275-281 | After the share check: the first lot is consumed, one sell row and one sell history row are appended, the holding drops by the smaller amount, and positive lots stay positive. |
| `App.Store.SellAt` | app.py:270-284 | With enough held shares, the proceeds are credited, the first lot is consumed and one sell row and one sell history row are appended. Otherwise nothing changes. Positive lots stay positive. |
| `App.Store.ExecuteTrade` | app.py:243-286 | The price comes through the cache. A buy or sell goes to its branch at that price; any other action answers 'Invalid action' and changes nothing. With non-negative inputs the balance stays non-negative. Every buy lot stays positive unless the action is a buy of 0 or fewer shares. |
| `App.Store.DepositWithdraw` | app.py:289-311 | A deposit credits the amount and logs it. A withdrawal with enough balance debits and logs it; otherwise it is refused and nothing changes. Any other type changes nothing, and other users are untouched. |
| `App.Store.UpsertRecord` | app.py:141-165 | One pass of the listing loop leaves the cache exactly as the upsert function says, reporting the key whose lookup fails; the other tables are untouched. |
| `App.Store.LoadLine` | app.py:140-165 | One loop pass appends the parsed record to the returned list and advances the cache by one upsert. |
| `App.Store.LoadRecords` | app.py:140-166 | The loop over the data lines leaves the cache as the fold of the upsert over all their records, and on success returns those records. |
| `App.Store.LoadListing` | app.py:136-166 | Over an empty cache, the listing is split into header and data lines and loaded. The cache is the fold of the upsert over all parsed records. The result is the record list, or the failing key when a lookup fails. |
| `App.Store.RefreshListing` | app.py:129-168 | A non-empty cache is returned unchanged; a failed fetch gives no records and no rows; otherwise the listing is loaded. |

## Left out

- HTTP, templates, redirects and flash messages are left out. Each handler's answer is a result datatype (`TradeResult`, `CashResult`, `RegisterResult`, `Listing`).
- Login, logout and the session user are left out. The acting user is a `userId` parameter that must exist (`login_required`).
- Password hashing and `check_password_hash` are left out: `Register` receives the hash.
- The `email` form field of `register` is read but never stored, so it is not modelled.
- The network calls are parameters: a `Quote` per symbol and a `ListingResponse`. A quote body without `"Global Quote"` / `"05. price"`, or with a non-numeric price, raises in the source; the model takes the price as already parsed.
- The request parsing is not modelled: `shares` is taken as the integer `int(...)` gives and `amount` as the number `float(...)` gives. In the source `int` truncates a JSON number toward zero (2.7 gives 2, `true` gives 1), and `float` accepts "nan" and "inf". Only strings that do not parse raise.
- Money is modelled as exact `real`. The `Float` columns are single-precision `FLOAT` in MySQL and the request values are Python doubles, so neither rounding is modelled.
- `.first()` without an `ORDER BY` (app.py:92, 116, 146, 197, 324) is taken to return the lowest row id; the database does not promise that order.
- `App.Store.Register`, `Ledger.HeldShares`, `Ledger.ConsumeFirstLot` and `PriceCache.FindStock` compare usernames and symbols by exact string equality. MySQL's default collation compares them case-insensitively, so in the source "Alice" is refused after "alice", and a sale of "abc" draws on lots bought as "ABC". The model does neither.
- `Ledger.Transaction` and `App.TradeRecord` hold shares as an unbounded `int`. The `Integer` column is 32 bits wide, so a count out of that range fails at the commit at app.py:266 after the debit was committed at app.py:260. That partial failure is not modelled.
- The column widths of `String(n)` (app.py:38, 45, 74-78) are not modelled: strings of any length are stored as given.
- Timestamps are left out, and with them the newest-first ordering of the portfolio page.
- The portfolio, index, add_stock, forgot_password and 404 pages do not change state.
- `stock_detail`'s random change fields and its chart data are left out. Only its first-lot share count is modelled (`Ledger.FirstLotShares`).
- In `update_portfolio`, the price re-fetch, the `None` checks and the reassignment of the user's balance to itself are not modelled; they change nothing. The price lookup always yields a number.
- Each handler is one atomic step. The intermediate commits inside `execute_trade` are not modelled: a crash between committing the balance and adding the rows would leave them apart. Concurrent requests are not modelled either.
- A `KeyError` in the listing loop drops the uncommitted changes of the failing record, because the session is discarded. The exception itself is modelled as the `Aborted` result.
- `get_nasdaq_stocks` appends each record to the returned list before its lookups. On success the model returns the same list; on failure the exception replaces the list.
