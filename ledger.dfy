/** The Transaction table as a sequence of rows in primary-key order: the buy
    lots a user holds, the sell rows appended after each sale, and the share
    accounting `has_enough_shares` and `update_portfolio` do over them. */
module Ledger {
  import opened Seqs

  /** The `action` column: the source writes only 'buy' and 'sell'. */
  datatype Side = Buy | Sell

  /** A Transaction row. `shares` is whatever integer the request carried. */
  datatype Transaction = Transaction(userId: nat, symbol: string, shares: int, price: real, action: Side)

  /** The cost of a buy or the earnings of a sale: `shares * price`. It is never
      negative for a non-negative count at a non-negative price. */
  function TradeValue(shares: int, price: real): (v: real)
    ensures shares >= 0 && price >= 0.0 ==> v >= 0.0
    ensures shares == 0 ==> v == 0.0
  {
    shares as real * price
  }

  /** The filter `user_id=userId, symbol=symbol, action='buy'`. */
  predicate IsOpenLot(t: Transaction, userId: nat, symbol: string) {
    t.userId == userId && t.symbol == symbol && t.action == Buy
  }

  /** `SUM(shares)` over the user's buy rows for the symbol, with the
      NULL of an empty sum read as 0. With positive lots nobody holds a
      negative number of shares. */
  function HeldShares(lots: seq<Transaction>, userId: nat, symbol: string): (n: int)
    ensures PositiveLots(lots) ==> n >= 0
  {
    if |lots| == 0 then 0
    else
      var init := lots[..|lots| - 1];
      var last := lots[|lots| - 1];
      assert PositiveLots(lots) ==> PositiveLots(init) by {
        if PositiveLots(lots) {
          forall j | 0 <= j < |init| && init[j].action == Buy ensures init[j].shares > 0 {
            assert init[j] == lots[j];
          }
        }
      }
      HeldShares(init, userId, symbol) + (if IsOpenLot(last, userId, symbol) then last.shares else 0)
  }

  /** `has_enough_shares`: the user holds at least `shares` of the symbol. As
      the count is not sign-checked, a count of 0 or less always passes when
      every lot is positive, even for a user with no lot at all. */
  predicate HasEnoughShares(lots: seq<Transaction>, userId: nat, symbol: string, shares: int)
    ensures PositiveLots(lots) && shares <= 0 ==> HasEnoughShares(lots, userId, symbol, shares)
  {
    HeldShares(lots, userId, symbol) >= shares
  }

  /** The row `Transaction.query.filter_by(user_id, symbol, action='buy').first()`
      finds: the lowest-indexed buy row of the user for the symbol, if any. */
  function FirstLot(lots: seq<Transaction>, userId: nat, symbol: string): (r: Option<nat>)
    ensures r.Some? ==> r.value < |lots| && IsOpenLot(lots[r.value], userId, symbol)
    ensures r.Some? ==> forall j :: 0 <= j < r.value ==> !IsOpenLot(lots[j], userId, symbol)
    ensures r.None? ==> forall i :: 0 <= i < |lots| ==> !IsOpenLot(lots[i], userId, symbol)
  {
    FirstMatch(lots, (t: Transaction) => IsOpenLot(t, userId, symbol))
  }

  /** The sell branch of `update_portfolio`: the first buy lot for the symbol
      loses `n` shares and is deleted once it holds 0 or fewer; nothing else changes.
      At most one row goes away and none is added. */
  function ConsumeFirstLot(lots: seq<Transaction>, userId: nat, symbol: string, n: int): (r: seq<Transaction>)
    ensures |lots| - 1 <= |r| <= |lots|
    ensures FirstLot(lots, userId, symbol).None? ==> r == lots
  {
    match FirstLot(lots, userId, symbol)
    case None => lots
    case Some(i) =>
      var left := lots[i].shares - n;
      if left <= 0 then lots[..i] + lots[i + 1..] else lots[i := lots[i].(shares := left)]
  }

  /** The shares `stock_detail` shows: those of the first buy lot, 0 without one. */
  function FirstLotShares(lots: seq<Transaction>, userId: nat, symbol: string): (r: int)
    ensures (forall i :: 0 <= i < |lots| ==> !IsOpenLot(lots[i], userId, symbol)) ==> r == 0
    ensures r != 0 ==> exists i :: 0 <= i < |lots| && IsOpenLot(lots[i], userId, symbol) && lots[i].shares == r
    ensures (exists i :: 0 <= i < |lots| && IsOpenLot(lots[i], userId, symbol)) ==>
      exists i :: 0 <= i < |lots| && IsOpenLot(lots[i], userId, symbol)
        && (forall j :: 0 <= j < i ==> !IsOpenLot(lots[j], userId, symbol)) && r == lots[i].shares
  {
    match FirstLot(lots, userId, symbol)
    case None => 0
    case Some(i) =>
      assert forall j :: 0 <= j < i ==> !IsOpenLot(lots[j], userId, symbol);
      lots[i].shares
  }

  /** Every buy lot holds a positive number of shares. */
  predicate PositiveLots(lots: seq<Transaction>) {
    forall i :: 0 <= i < |lots| && lots[i].action == Buy ==> lots[i].shares > 0
  }

  /** Every row belongs to a user id below `bound`. */
  predicate UsersBelow(lots: seq<Transaction>, bound: nat) {
    forall i :: 0 <= i < |lots| ==> lots[i].userId < bound
  }

  /** The sell branch keeps the rows before the first buy lot and after it as
      they were; that lot loses `n` shares, or is deleted when 0 or fewer are left. */
  lemma ConsumeFirstLotShape(lots: seq<Transaction>, userId: nat, symbol: string, n: int)
    ensures match FirstLot(lots, userId, symbol)
      case None => ConsumeFirstLot(lots, userId, symbol, n) == lots
      case Some(i) =>
        var after := ConsumeFirstLot(lots, userId, symbol, n);
        var left := lots[i].shares - n;
        && after[..i] == lots[..i]
        && (left <= 0 ==> after[i..] == lots[i + 1..])
        && (left > 0 ==> after[i] == lots[i].(shares := left) && after[i + 1..] == lots[i + 1..])
  {
    match FirstLot(lots, userId, symbol)
    case None =>
    case Some(i) =>
      var after := ConsumeFirstLot(lots, userId, symbol, n);
      if lots[i].shares - n <= 0 {
        assert after == lots[..i] + lots[i + 1..];
      }
  }

  /** A sale does not introduce rows of other users. */
  lemma ConsumeFirstLotUsersBelow(lots: seq<Transaction>, userId: nat, symbol: string, n: int, bound: nat)
    requires UsersBelow(lots, bound)
    ensures UsersBelow(ConsumeFirstLot(lots, userId, symbol, n), bound)
  {
    match FirstLot(lots, userId, symbol)
    case None =>
    case Some(i) =>
      var after := ConsumeFirstLot(lots, userId, symbol, n);
      if lots[i].shares - n <= 0 {
        forall j | 0 <= j < |after| ensures after[j].userId < bound {
          if j >= i {
            assert after[j] == lots[j + 1];
          }
        }
      }
  }

  /** Held shares add up over a concatenation of tables. */
  lemma {:induction false} HeldSharesConcat(a: seq<Transaction>, b: seq<Transaction>, userId: nat, symbol: string)
    ensures HeldShares(a + b, userId, symbol) == HeldShares(a, userId, symbol) + HeldShares(b, userId, symbol)
    decreases |b|
  {
    if |b| == 0 {
      assert a + b == a;
    } else {
      var b' := b[..|b| - 1];
      assert (a + b)[..|a + b| - 1] == a + b';
      HeldSharesConcat(a, b', userId, symbol);
    }
  }

  /** With no buy lot for the symbol the sum is 0 (the NULL case). */
  lemma {:induction false} HeldSharesNoLot(lots: seq<Transaction>, userId: nat, symbol: string)
    requires FirstLot(lots, userId, symbol).None?
    ensures HeldShares(lots, userId, symbol) == 0
  {
    if |lots| > 0 {
      var init := lots[..|lots| - 1];
      assert forall j :: 0 <= j < |init| ==> init[j] == lots[j];
      HeldSharesNoLot(init, userId, symbol);
      assert !IsOpenLot(lots[|lots| - 1], userId, symbol);
    }
  }

  /** Appending a row adds its shares exactly when it is a buy row of that user
      and symbol: the sell rows a sale appends are never counted. */
  lemma HeldSharesAppend(lots: seq<Transaction>, t: Transaction, userId: nat, symbol: string)
    ensures t.action == Sell ==> HeldShares(lots + [t], userId, symbol) == HeldShares(lots, userId, symbol)
    ensures IsOpenLot(t, userId, symbol) ==> HeldShares(lots + [t], userId, symbol) == HeldShares(lots, userId, symbol) + t.shares
    ensures !IsOpenLot(t, userId, symbol) ==> HeldShares(lots + [t], userId, symbol) == HeldShares(lots, userId, symbol)
  {
    assert (lots + [t])[..|lots|] == lots;
  }

  /** What one row adds to a user's held shares of a symbol. */
  function Contribution(t: Transaction, userId: nat, symbol: string): int {
    if IsOpenLot(t, userId, symbol) then t.shares else 0
  }

  /** Held shares, taken apart around the row at index `i`. */
  lemma HeldSharesAround(lots: seq<Transaction>, i: nat, userId: nat, symbol: string)
    requires i < |lots|
    ensures HeldShares(lots, userId, symbol)
      == HeldShares(lots[..i], userId, symbol) + Contribution(lots[i], userId, symbol) + HeldShares(lots[i + 1..], userId, symbol)
  {
    assert lots == lots[..i] + [lots[i]] + lots[i + 1..];
    HeldSharesConcat(lots[..i] + [lots[i]], lots[i + 1..], userId, symbol);
    HeldSharesAppend(lots[..i], lots[i], userId, symbol);
  }

  /** The held shares of any user and symbol after a sale, in terms of the row it touched. */
  lemma ConsumeFirstLotEffect(lots: seq<Transaction>, userId: nat, symbol: string, n: int, u: nat, s: string)
    requires FirstLot(lots, userId, symbol).Some?
    ensures var i := FirstLot(lots, userId, symbol).value;
      var left := lots[i].shares - n;
      HeldShares(ConsumeFirstLot(lots, userId, symbol, n), u, s)
        == HeldShares(lots, u, s) - Contribution(lots[i], u, s)
           + (if left <= 0 then 0 else Contribution(lots[i].(shares := left), u, s))
  {
    var i := FirstLot(lots, userId, symbol).value;
    var left := lots[i].shares - n;
    var after := ConsumeFirstLot(lots, userId, symbol, n);
    HeldSharesAround(lots, i, u, s);
    if left <= 0 {
      assert after == lots[..i] + lots[i + 1..];
      HeldSharesConcat(lots[..i], lots[i + 1..], u, s);
      assert HeldShares(after, u, s) == HeldShares(lots[..i], u, s) + HeldShares(lots[i + 1..], u, s);
    } else {
      assert after == lots[i := lots[i].(shares := left)];
      assert after[..i] == lots[..i] && after[i + 1..] == lots[i + 1..];
      HeldSharesAround(after, i, u, s);
      assert HeldShares(after, u, s) == HeldShares(lots[..i], u, s) + Contribution(lots[i].(shares := left), u, s) + HeldShares(lots[i + 1..], u, s);
    }
  }

  /** A sale lowers the seller's held shares by the smaller of the amount sold and
      the first lot's shares, not necessarily by the amount sold. */
  lemma ConsumeFirstLotHeld(lots: seq<Transaction>, userId: nat, symbol: string, n: int)
    ensures FirstLot(lots, userId, symbol).None? ==>
      HeldShares(ConsumeFirstLot(lots, userId, symbol, n), userId, symbol) == HeldShares(lots, userId, symbol)
    ensures FirstLot(lots, userId, symbol).Some? ==>
      var f := lots[FirstLot(lots, userId, symbol).value].shares;
      HeldShares(ConsumeFirstLot(lots, userId, symbol, n), userId, symbol)
        == HeldShares(lots, userId, symbol) - (if n <= f then n else f)
  {
    if FirstLot(lots, userId, symbol).Some? {
      ConsumeFirstLotEffect(lots, userId, symbol, n, userId, symbol);
    }
  }

  /** Rows of other users and other symbols keep their held shares through a sale. */
  lemma ConsumeFirstLotOthers(lots: seq<Transaction>, userId: nat, symbol: string, n: int, otherUser: nat, otherSymbol: string)
    requires otherUser != userId || otherSymbol != symbol
    ensures HeldShares(ConsumeFirstLot(lots, userId, symbol, n), otherUser, otherSymbol) == HeldShares(lots, otherUser, otherSymbol)
  {
    if FirstLot(lots, userId, symbol).Some? {
      ConsumeFirstLotEffect(lots, userId, symbol, n, otherUser, otherSymbol);
    }
  }

  /** A sale keeps every buy lot positive: the lot it touches either keeps a
      positive count or is deleted. */
  lemma ConsumeFirstLotPositive(lots: seq<Transaction>, userId: nat, symbol: string, n: int)
    requires PositiveLots(lots)
    ensures PositiveLots(ConsumeFirstLot(lots, userId, symbol, n))
  {
  }

  /** Appending a sell row, or a buy row of a positive count, keeps every buy lot positive. */
  lemma PositiveLotsAppend(lots: seq<Transaction>, t: Transaction)
    requires PositiveLots(lots) && (t.action == Buy ==> t.shares > 0)
    ensures PositiveLots(lots + [t])
  {
    forall i | 0 <= i < |lots| + 1 && (lots + [t])[i].action == Buy ensures (lots + [t])[i].shares > 0 {
      if i < |lots| {
        assert (lots + [t])[i] == lots[i];
      }
    }
  }

  /** When the first lot is smaller than the sale, the seller keeps more shares
      than were paid for: `has_enough_shares` checked the total, but only the
      first lot is consumed. */
  lemma SellShortfall(lots: seq<Transaction>, userId: nat, symbol: string, n: int)
    requires FirstLot(lots, userId, symbol).Some?
    requires lots[FirstLot(lots, userId, symbol).value].shares < n
    ensures HeldShares(ConsumeFirstLot(lots, userId, symbol, n), userId, symbol) > HeldShares(lots, userId, symbol) - n
  {
    ConsumeFirstLotHeld(lots, userId, symbol, n);
  }

  /** Two lots of 3 shares: selling 5 passes the check (6 held) yet leaves 3, not 1. */
  lemma SellShortfallExample()
    ensures var lots := [Transaction(0, "ABC", 3, 10.0, Buy), Transaction(0, "ABC", 3, 10.0, Buy)];
      && HasEnoughShares(lots, 0, "ABC", 5)
      && HeldShares(ConsumeFirstLot(lots, 0, "ABC", 5), 0, "ABC") == 3
  {
    var lots := [Transaction(0, "ABC", 3, 10.0, Buy), Transaction(0, "ABC", 3, 10.0, Buy)];
    assert FirstLot(lots, 0, "ABC") == Some(0);
    ConsumeFirstLotHeld(lots, 0, "ABC", 5);
    assert HeldShares(lots[..1], 0, "ABC") == 3;
  }

  /** With positive lots, the share count `stock_detail` shows is at most what is held. */
  lemma {:induction false} FirstLotSharesBound(lots: seq<Transaction>, userId: nat, symbol: string)
    requires PositiveLots(lots)
    ensures 0 <= FirstLotShares(lots, userId, symbol) <= HeldShares(lots, userId, symbol)
  {
    match FirstLot(lots, userId, symbol)
    case None =>
      HeldSharesNoLot(lots, userId, symbol);
    case Some(i) =>
      HeldSharesAround(lots, i, userId, symbol);
      PositiveLotsAround(lots, i);
  }

  /** The rows before and after any one row of a table of positive lots are positive lots. */
  lemma PositiveLotsAround(lots: seq<Transaction>, i: nat)
    requires PositiveLots(lots) && i < |lots|
    ensures PositiveLots(lots[..i]) && PositiveLots(lots[i + 1..])
  {
    var pre, suf := lots[..i], lots[i + 1..];
    forall j | 0 <= j < |pre| && pre[j].action == Buy ensures pre[j].shares > 0 {
      assert pre[j] == lots[j];
    }
    forall j | 0 <= j < |suf| && suf[j].action == Buy ensures suf[j].shares > 0 {
      assert suf[j] == lots[i + 1 + j];
    }
  }

}
