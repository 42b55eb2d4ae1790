/** The state behind the request handlers: the five tables as fields of one
    store, and the handlers that change them — registration, trades, cash
    movements and the listing refresh — each as one atomic step. */
module App {
  import opened Seqs
  import opened Text
  import opened Ledger
  import opened PriceCache

  /** A User row; its id is its index in the table. */
  datatype User = User(username: string, passwordHash: string, balance: real)

  /** A StockTransactionHistory row. */
  datatype TradeRecord = TradeRecord(userId: nat, symbol: string, shares: int, action: Side, price: real)

  /** The `transaction_type` of a TransactionHistory row. */
  datatype CashKind = Deposit | Withdraw

  /** A TransactionHistory row. */
  datatype CashRecord = CashRecord(userId: nat, amount: real, kind: CashKind)

  /** The JSON answer of `execute_trade`: success with the amount and symbol, or the failure message. */
  datatype TradeResult = Bought(shares: int, symbol: string) | Sold(shares: int, symbol: string)
                       | InsufficientFunds | InsufficientShares | InvalidAction

  /** What `deposit_withdraw` did: a credit, a debit, a refused withdrawal
      ("Insufficient funds for withdrawal"), or nothing for any other type. */
  datatype CashResult = Deposited | Withdrawn | WithdrawRefused | NoChange

  /** What `register` did. */
  datatype RegisterResult = Registered(userId: nat) | UsernameTaken

  /** What `get_nasdaq_stocks` gives back: the cached rows when the cache is not
      empty, else the parsed records (none on a failed fetch), or the key whose
      lookup raised `KeyError`. */
  datatype Listing = CachedRows(rows: seq<StockPrice>) | Fetched(records: seq<Record>) | Aborted(missingKey: string)

  /** The column default of `User.balance`. */
  const DefaultBalance: real := 0.0

  /** Some user already has this username. */
  predicate NameTaken(users: seq<User>, username: string) {
    exists i :: 0 <= i < |users| && users[i].username == username
  }

  class Store {
    var users: seq<User>
    var lots: seq<Transaction>
    var trades: seq<TradeRecord>
    var cashLog: seq<CashRecord>
    var prices: seq<StockPrice>

    /** Every row refers to an existing user, and usernames are unique. */
    ghost predicate Valid()
      reads this`users, this`lots, this`trades, this`cashLog
    {
      && UsersBelow(lots, |users|)
      && (forall i :: 0 <= i < |trades| ==> trades[i].userId < |users|)
      && (forall i :: 0 <= i < |cashLog| ==> cashLog[i].userId < |users|)
      && (forall i, j :: 0 <= i < j < |users| ==> users[i].username != users[j].username)
    }

    /** A fresh, empty database (`db.create_all()`). */
    constructor ()
      ensures Valid()
      ensures users == [] && lots == [] && trades == [] && cashLog == [] && prices == []
    {
      users, lots, trades, cashLog, prices := [], [], [], [], [];
    }

    /** `register`: a taken username is refused and nothing changes; otherwise
        exactly one user is added, with the hashed password and the default balance. */
    method Register(username: string, passwordHash: string) returns (r: RegisterResult)
      requires Valid()
      modifies this`users
      ensures Valid()
      ensures NameTaken(old(users), username) ==> r == UsernameTaken && users == old(users)
      ensures !NameTaken(old(users), username) ==>
        r == Registered(|old(users)|) && users == old(users) + [User(username, passwordHash, DefaultBalance)]
    {
      var existing := FirstMatch(users, (u: User) => u.username == username);
      if existing.Some? {
        r := UsernameTaken;
      } else {
        r := Registered(|users|);
        users := users + [User(username, passwordHash, DefaultBalance)];
      }
    }

    /** The sell branch of `update_portfolio`: only the first buy lot of the user
        for the symbol changes (see `ConsumeFirstLotShape`), and the user's held
        shares drop by the smaller of the amount sold and that lot's shares.
        Any other action changes nothing. */
    method UpdatePortfolio(userId: nat, symbol: string, shares: int, action: string)
      requires Valid() && userId < |users|
      modifies this`lots
      ensures Valid()
      ensures action == "sell" ==> lots == ConsumeFirstLot(old(lots), userId, symbol, shares)
      ensures action == "sell" ==> FirstLot(old(lots), userId, symbol).Some? ==>
        var f := old(lots)[FirstLot(old(lots), userId, symbol).value].shares;
        HeldShares(lots, userId, symbol) == HeldShares(old(lots), userId, symbol) - (if shares <= f then shares else f)
      ensures action != "sell" ==> lots == old(lots)
    {
      if action == "sell" {
        var first := FirstLot(lots, userId, symbol);
        if first.Some? {
          var i := first.value;
          var left := lots[i].shares - shares;
          if left <= 0 {
            lots := lots[..i] + lots[i + 1..];
          } else {
            lots := lots[i := lots[i].(shares := left)];
          }
        }
        ConsumeFirstLotHeld(old(lots), userId, symbol, shares);
        ConsumeFirstLotUsersBelow(old(lots), userId, symbol, shares, |users|);
      }
    }

    /** The buy branch of `execute_trade` at a known price: with `balance >= shares * price`
        the cost is debited and one buy lot and one buy history entry are appended,
        adding `shares` to the user's holding; otherwise nothing changes. */
    method BuyAt(userId: nat, symbol: string, shares: int, price: real) returns (r: TradeResult)
      requires Valid() && userId < |users|
      modifies this`users, this`lots, this`trades
      ensures Valid()
      ensures var cost := TradeValue(shares, price);
        if old(users)[userId].balance >= cost then
          && r == Bought(shares, symbol)
          && users == old(users)[userId := old(users)[userId].(balance := old(users)[userId].balance - cost)]
          && lots == old(lots) + [Transaction(userId, symbol, shares, price, Buy)]
          && trades == old(trades) + [TradeRecord(userId, symbol, shares, Buy, price)]
        else
          r == InsufficientFunds && users == old(users) && lots == old(lots) && trades == old(trades)
      ensures r.Bought? ==> users[userId].balance >= 0.0
      ensures r.Bought? ==> HeldShares(lots, userId, symbol) == HeldShares(old(lots), userId, symbol) + shares
      ensures PositiveLots(old(lots)) && shares > 0 ==> PositiveLots(lots)
    {
      var cost := TradeValue(shares, price);
      if users[userId].balance >= cost {
        users := users[userId := users[userId].(balance := users[userId].balance - cost)];
        lots := lots + [Transaction(userId, symbol, shares, price, Buy)];
        trades := trades + [TradeRecord(userId, symbol, shares, Buy, price)];
        HeldSharesAppend(old(lots), Transaction(userId, symbol, shares, price, Buy), userId, symbol);
        if PositiveLots(old(lots)) && shares > 0 {
          PositiveLotsAppend(old(lots), Transaction(userId, symbol, shares, price, Buy));
        }
        r := Bought(shares, symbol);
      } else {
        r := InsufficientFunds;
      }
    }

    /** The table updates of a sale that passed the share check: the first buy
        lot is consumed (`update_portfolio`), then one sell row and one sell
        history entry are appended. */
    method RecordSale(userId: nat, symbol: string, shares: int, price: real)
      requires Valid() && userId < |users|
      modifies this`lots, this`trades
      ensures Valid()
      ensures lots == ConsumeFirstLot(old(lots), userId, symbol, shares) + [Transaction(userId, symbol, shares, price, Sell)]
      ensures trades == old(trades) + [TradeRecord(userId, symbol, shares, Sell, price)]
      ensures FirstLot(old(lots), userId, symbol).Some? ==>
        var f := old(lots)[FirstLot(old(lots), userId, symbol).value].shares;
        HeldShares(lots, userId, symbol) == HeldShares(old(lots), userId, symbol) - (if shares <= f then shares else f)
      ensures PositiveLots(old(lots)) ==> PositiveLots(lots)
    {
      UpdatePortfolio(userId, symbol, shares, "sell");
      var consumed := lots;
      lots := lots + [Transaction(userId, symbol, shares, price, Sell)];
      trades := trades + [TradeRecord(userId, symbol, shares, Sell, price)];
      HeldSharesAppend(consumed, Transaction(userId, symbol, shares, price, Sell), userId, symbol);
      if PositiveLots(old(lots)) {
        ConsumeFirstLotPositive(old(lots), userId, symbol, shares);
        PositiveLotsAppend(consumed, Transaction(userId, symbol, shares, price, Sell));
      }
    }

    /** The sell branch of `execute_trade` at a known price: when the user holds at
        least `shares`, the proceeds are credited and the sale is recorded
        (`RecordSale`); otherwise nothing changes. */
    method SellAt(userId: nat, symbol: string, shares: int, price: real) returns (r: TradeResult)
      requires Valid() && userId < |users|
      modifies this`users, this`lots, this`trades
      ensures Valid()
      ensures if HasEnoughShares(old(lots), userId, symbol, shares) then
          && r == Sold(shares, symbol)
          && users == old(users)[userId := old(users)[userId].(balance := old(users)[userId].balance + TradeValue(shares, price))]
          && lots == ConsumeFirstLot(old(lots), userId, symbol, shares) + [Transaction(userId, symbol, shares, price, Sell)]
          && trades == old(trades) + [TradeRecord(userId, symbol, shares, Sell, price)]
        else
          r == InsufficientShares && users == old(users) && lots == old(lots) && trades == old(trades)
      ensures r.Sold? && FirstLot(old(lots), userId, symbol).Some? ==>
        var f := old(lots)[FirstLot(old(lots), userId, symbol).value].shares;
        HeldShares(lots, userId, symbol) == HeldShares(old(lots), userId, symbol) - (if shares <= f then shares else f)
      ensures PositiveLots(old(lots)) ==> PositiveLots(lots)
    {
      if HasEnoughShares(lots, userId, symbol, shares) {
        RecordSale(userId, symbol, shares, price);
        users := users[userId := users[userId].(balance := users[userId].balance + TradeValue(shares, price))];
        r := Sold(shares, symbol);
      } else {
        r := InsufficientShares;
      }
    }

    /** `execute_trade`. The price comes through the cache (the provider's
        answer `quote` is only used on a miss); 'buy' and 'sell' go to their
        branches at that price, and any other action changes nothing. With a
        non-negative balance, share count and price the balance stays non-negative. */
    method ExecuteTrade(userId: nat, symbol: string, shares: int, action: string, quote: Quote) returns (r: TradeResult)
      requires Valid() && userId < |users|
      modifies this`users, this`lots, this`trades
      ensures Valid()
      ensures action == "buy" ==>
        var price := PriceOf(old(prices), symbol, quote);
        var cost := TradeValue(shares, price);
        if old(users)[userId].balance >= cost then
          && r == Bought(shares, symbol)
          && users == old(users)[userId := old(users)[userId].(balance := old(users)[userId].balance - cost)]
          && lots == old(lots) + [Transaction(userId, symbol, shares, price, Buy)]
          && trades == old(trades) + [TradeRecord(userId, symbol, shares, Buy, price)]
        else
          r == InsufficientFunds && users == old(users) && lots == old(lots) && trades == old(trades)
      ensures action == "sell" ==>
        var price := PriceOf(old(prices), symbol, quote);
        if HasEnoughShares(old(lots), userId, symbol, shares) then
          && r == Sold(shares, symbol)
          && users == old(users)[userId := old(users)[userId].(balance := old(users)[userId].balance + TradeValue(shares, price))]
          && lots == ConsumeFirstLot(old(lots), userId, symbol, shares) + [Transaction(userId, symbol, shares, price, Sell)]
          && trades == old(trades) + [TradeRecord(userId, symbol, shares, Sell, price)]
        else
          r == InsufficientShares && users == old(users) && lots == old(lots) && trades == old(trades)
      ensures action != "buy" && action != "sell" ==>
        r == InvalidAction && users == old(users) && lots == old(lots) && trades == old(trades)
      ensures r.Bought? ==> HeldShares(lots, userId, symbol) == HeldShares(old(lots), userId, symbol) + shares
      ensures r.Sold? && FirstLot(old(lots), userId, symbol).Some? ==>
        var f := old(lots)[FirstLot(old(lots), userId, symbol).value].shares;
        HeldShares(lots, userId, symbol) == HeldShares(old(lots), userId, symbol) - (if shares <= f then shares else f)
      ensures old(users)[userId].balance >= 0.0 && shares >= 0 && PriceOf(old(prices), symbol, quote) >= 0.0 ==>
        |users| == |old(users)| && users[userId].balance >= 0.0
      ensures PositiveLots(old(lots)) && (action == "buy" ==> shares > 0) ==> PositiveLots(lots)
    {
      var price := PriceOf(prices, symbol, quote);
      if action == "buy" {
        r := BuyAt(userId, symbol, shares, price);
      } else if action == "sell" {
        r := SellAt(userId, symbol, shares, price);
      } else {
        r := InvalidAction;
      }
    }

    /** `deposit_withdraw`. A deposit always credits `amount` and logs it; a
        withdrawal with `balance >= amount` debits and logs it, otherwise nothing
        changes; any other type changes nothing. */
    method DepositWithdraw(userId: nat, amount: real, kind: string) returns (r: CashResult)
      requires Valid() && userId < |users|
      modifies this`users, this`cashLog
      ensures Valid()
      ensures |users| == |old(users)|
      ensures forall u :: 0 <= u < |users| && u != userId ==> users[u] == old(users)[u]
      ensures kind == "deposit" ==>
        && r == Deposited
        && users[userId] == old(users)[userId].(balance := old(users)[userId].balance + amount)
        && cashLog == old(cashLog) + [CashRecord(userId, amount, Deposit)]
      ensures kind == "withdraw" ==>
        if old(users)[userId].balance >= amount then
          && r == Withdrawn
          && users[userId] == old(users)[userId].(balance := old(users)[userId].balance - amount)
          && cashLog == old(cashLog) + [CashRecord(userId, amount, Withdraw)]
        else
          r == WithdrawRefused && users == old(users) && cashLog == old(cashLog)
      ensures kind != "deposit" && kind != "withdraw" ==>
        r == NoChange && users == old(users) && cashLog == old(cashLog)
      ensures r == Withdrawn ==> users[userId].balance >= 0.0
      ensures old(users)[userId].balance >= 0.0 && amount >= 0.0 ==> users[userId].balance >= 0.0
    {
      if kind == "deposit" {
        users := users[userId := users[userId].(balance := users[userId].balance + amount)];
        cashLog := cashLog + [CashRecord(userId, amount, Deposit)];
        r := Deposited;
      } else if kind == "withdraw" {
        if users[userId].balance >= amount {
          users := users[userId := users[userId].(balance := users[userId].balance - amount)];
          cashLog := cashLog + [CashRecord(userId, amount, Withdraw)];
          r := Withdrawn;
        } else {
          r := WithdrawRefused;
        }
      } else {
        r := NoChange;
      }
    }

    /** One pass of the loop body of `get_nasdaq_stocks`: price the record's symbol
        through the cache, then overwrite its row or insert a new one. A missing
        key is reported before anything is written. */
    method UpsertRecord(rec: Record, quote: string -> Quote) returns (missing: Option<string>)
      modifies this`prices
      ensures Upsert(old(prices), rec, quote) == Upserted(prices, missing)
    {
      if SymbolKey !in rec {
        return Some(SymbolKey);
      }
      var symbol := rec[SymbolKey];
      var price := PriceOf(prices, symbol, quote(symbol));
      var existing := FindStock(prices, symbol);
      if existing.Some? {
        missing := MissingKey(rec, [NameKey, ExchangeKey, AssetTypeKey, UpdateStatusKey]);
        if missing.None? {
          var i := existing.value;
          prices := prices[i := prices[i].(price := price, name := rec[NameKey], exchange := rec[ExchangeKey],
                                           assetType := rec[AssetTypeKey], status := rec[UpdateStatusKey])];
        }
      } else {
        missing := MissingKey(rec, [NameKey, ExchangeKey, AssetTypeKey, InsertStatusKey]);
        if missing.None? {
          prices := prices + [StockPrice(symbol, rec[NameKey], rec[ExchangeKey], rec[AssetTypeKey], rec[InsertStatusKey], price)];
        }
      }
    }

    /** `get_nasdaq_stocks`, which touches only the StockPrice table. A non-empty
        cache is returned as it is. Otherwise the listing is fetched; a failed fetch
        gives no records; a successful one is loaded into the cache by `LoadListing`. */
    method RefreshListing(response: ListingResponse, quote: string -> Quote) returns (result: Listing)
      modifies this`prices
      ensures old(prices) != [] ==> result == CachedRows(old(prices)) && prices == old(prices)
      ensures old(prices) == [] && response.ListingFailed? ==> result == Fetched([]) && prices == []
      ensures old(prices) == [] && response.ListingOk? ==>
        var done := UpsertAll([], ParseListing(response.text), quote);
        && prices == done.rows
        && result == (if done.missing.Some? then Aborted(done.missing.value) else Fetched(ParseListing(response.text)))
    {
      if |prices| != 0 {
        return CachedRows(prices);
      }
      if response.ListingFailed? {
        return Fetched([]);
      }
      result := LoadListing(response.text, quote);
    }

    /** One iteration of the loop of `get_nasdaq_stocks`: parse the line into a
        record, append it to the records so far, and upsert it. The cache then
        stands where the fold of the upsert over the longer record list leaves it. */
    method LoadLine(headers: seq<string>, line: string, stocks: seq<Record>, quote: string -> Quote)
      returns (stocks': seq<Record>, missing: Option<string>)
      requires UpsertAll([], stocks, quote) == Upserted(prices, None)
      modifies this`prices
      ensures stocks' == stocks + [ParseRecord(headers, line)]
      ensures UpsertAll([], stocks', quote) == Upserted(prices, missing)
    {
      var rec := ParseRecord(headers, line);
      UpsertAllSnoc([], stocks, rec, quote);
      stocks' := stocks + [rec];
      missing := UpsertRecord(rec, quote);
    }

    /** The loop of `get_nasdaq_stocks` over the data lines, into an empty cache:
        each line is parsed into a record, its symbol priced through the cache
        and its row inserted or overwritten, until a lookup of a missing key
        aborts. */
    method LoadRecords(headers: seq<string>, data: seq<string>, quote: string -> Quote)
        returns (stocks: seq<Record>, missing: Option<string>)
      requires prices == []
      modifies this`prices
      ensures UpsertAll([], ParseRecords(headers, data), quote) == Upserted(prices, missing)
      ensures missing.None? ==> stocks == ParseRecords(headers, data)
    {
      stocks := [];
      missing := None;
      var k := 0;
      while k < |data| && missing.None?
        invariant 0 <= k <= |data|
        invariant stocks == ParseRecords(headers, data[..k])
        invariant UpsertAll([], stocks, quote) == Upserted(prices, missing)
      {
        TakeNext(data, k);
        ParseRecordsSnoc(headers, data[..k], data[k]);
        stocks, missing := LoadLine(headers, data[k], stocks, quote);
        k := k + 1;
      }
      LoadComplete(headers, data, k, stocks, prices, missing, quote);
    }

    /** `get_nasdaq_stocks` on a listing body, over an empty cache: the first line
        gives the column names, the others are loaded in order. */
    method LoadListing(text: string, quote: string -> Quote) returns (result: Listing)
      requires prices == []
      modifies this`prices
      ensures var done := UpsertAll([], ParseListing(text), quote);
        && prices == done.rows
        && result == (if done.missing.Some? then Aborted(done.missing.value) else Fetched(ParseListing(text)))
    {
      var stocks, missing := LoadRecords(ListingHeaders(text), ListingLines(text)[1..], quote);
      result := if missing.Some? then Aborted(missing.value) else Fetched(stocks);
    }
  }

  /** A new user deposits 1000.00 and buys 10 ABC at 50.00: 500.00 is left and
      10 shares are held. */
  method BuyScenario() {
    var db := new Store();
    var reg := db.Register("alice", "hash");
    assert reg == Registered(0);
    var dep := db.DepositWithdraw(0, 1000.0, "deposit");
    assert db.users[0].balance == 1000.0;
    var buy := db.ExecuteTrade(0, "ABC", 10, "buy", Quoted(50.0));
    assert buy == Bought(10, "ABC");
    assert db.users[0].balance == 500.0;
    assert db.lots == [Transaction(0, "ABC", 10, 50.0, Buy)];
    assert HeldShares(db.lots, 0, "ABC") == 10;
  }

  /** Holding 10 ABC, selling 4 at 60.00 credits 240.00, leaves 6 in the lot and
      appends a sell row; selling 20 more is refused. */
  method SellScenario() {
    var db := new Store();
    db.users := [User("alice", "hash", 500.0)];
    db.lots := [Transaction(0, "ABC", 10, 50.0, Buy)];
    var sell := db.ExecuteTrade(0, "ABC", 4, "sell", Quoted(60.0));
    assert sell == Sold(4, "ABC");
    assert db.users[0].balance == 740.0;
    assert db.lots == [Transaction(0, "ABC", 6, 50.0, Buy), Transaction(0, "ABC", 4, 60.0, Sell)];
    assert db.trades == [TradeRecord(0, "ABC", 4, Sell, 60.0)];
    var again := db.ExecuteTrade(0, "ABC", 20, "sell", Quoted(60.0));
    assert again == InsufficientShares && db.users[0].balance == 740.0;
  }

  /** The share count is not sign-checked: a sale of -5 passes the share check
      with no lots at all and debits the seller, whose balance drops below zero. */
  method NegativeSellScenario() {
    var db := new Store();
    db.users := [User("alice", "hash", 0.0)];
    var sell := db.ExecuteTrade(0, "ABC", -5, "sell", Quoted(10.0));
    assert sell == Sold(-5, "ABC");
    assert db.users[0].balance == -50.0;
  }

  /** A buy of 0 shares is accepted and leaves a buy lot that holds no shares. */
  method ZeroBuyScenario() {
    var db := new Store();
    db.users := [User("alice", "hash", 0.0)];
    var buy := db.ExecuteTrade(0, "ABC", 0, "buy", Quoted(10.0));
    assert buy == Bought(0, "ABC");
    assert db.lots == [Transaction(0, "ABC", 0, 10.0, Buy)];
    assert !PositiveLots(db.lots);
  }

  /** A withdrawal larger than the balance is refused and not logged. */
  method WithdrawScenario() {
    var db := new Store();
    db.users := [User("alice", "hash", 740.0)];
    var wd := db.DepositWithdraw(0, 2000.0, "withdraw");
    assert wd == WithdrawRefused && db.users[0].balance == 740.0 && db.cashLog == [];
  }
}
