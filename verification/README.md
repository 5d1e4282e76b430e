# A verified model of a binary prediction market

This project models the engine of LudeeD/market in Dafny. LudeeD/market is a small web application for binary (yes/no) prediction markets. Traders buy and sell shares of either side of a question. A Logarithmic Market Scoring Rule (LMSR) market maker prices every trade. When the designated oracle resolves a market, each share of the winning side pays 1.

The model covers the following:

- **Pricing** (`pricing.dfy`). The LMSR cost function and buy, sell and price formulas, plus the legacy constant-product market maker. All are over `real`.
- **Entities** (`sides.dfy`, `markets.dfy`, `positions.dfy`, `users.dfy`). The side of a market with its text form, the market and its three-state life cycle (Active, Closed, Resolved), a holder's position with its weighted-average cost basis, and a trader's account.
- **Store** (`market_repo.dfy`, `user_repo.dfy`, `position_repo.dfy`, `snapshot_repo.dfy`). One class per table. Each holds its rows as a `seq`, and row `k - 1` has id `k`. Each method mirrors one query and its `WHERE` guard.
- **Procedures**:
  - `trading.dfy`: buy, sell, and the portfolio page.
  - `market_handlers.dfy`: market creation, the viewer's part of a market page, and resolution with settlement.
  - `api.dfy`: the JSON buy quote and the price chart.

## How the procedures are modelled

The trade and settlement procedures are methods over the table objects. They run their store writes in the order the handlers do, with no transaction.

A store call can fail for reasons outside the model, such as a database error. The parameter `failing` (or a boolean such as `storeFails`) names the calls that fail. A failed read in a procedure's checks is reported with the same error as a missing row, before anything is written. A failed write changes nothing and ends the procedure, and every write made before it stays made. A failed price snapshot is the exception: it is ignored, as in the source.

Each trade's end state is stated against a pure function of the tables as they were (`Trading.BuyOutcome`, `Trading.SellOutcome`). Lemmas then prove what those functions promise.

`exp` and `ln` are not defined. They are constants of subset types whose laws are all the model knows:

- `exp` is positive and strictly increasing;
- `ln` is strictly increasing on the positive reals.

A concrete witness shows that these laws are consistent.

Time is an integer count of seconds, and the procedures take the current time as a `now` parameter.

## Model

| member | source | states |
|---|---|---|
| Sides.MarketSide.Opposite | src/domain/market.rs:15-20 | the opposite side is never the side itself |
| Sides.OppositeInvolution | src/domain/market.rs:15-20 | taking the opposite twice gives the side back |
| Sides.MarketSide.ToString | src/domain/market.rs:23-30 | the display form is "yes" or "no" and is already lower-case |
| Sides.Parse | src/domain/market.rs:32-42 | a text parses to a side exactly when its lower-cased form is that side's display form; every other text is rejected |
| Sides.ParseDisplay | src/domain/market.rs:23-42 | parsing the display form of a side returns that side |
| Sides.ParseIgnoresCase | src/domain/market.rs:35-41 | a text parses exactly as its lower-cased form does |
| Sides.ParseUpperCase | src/domain/market.rs:35-41 | "YES" and "No" are accepted |
| Markets.Market.Oracle | src/domain/market.rs:132-134 | the designated oracle when there is one, otherwise the creator |
| Markets.Market.Status | src/domain/market.rs:140-152 | Resolved iff resolved; otherwise Closed iff closed explicitly or past the end date; otherwise Active |
| Markets.Market.CanTrade | src/domain/market.rs:154-156 | trading is allowed exactly when the status is Active |
| Markets.Market.CanResolve | src/domain/market.rs:158-160 | exactly when the status is Closed |
| Markets.Market.CanResolveBy | src/domain/market.rs:136-138 | exactly when the market can be resolved, the end date has passed, and the user is the oracle |
| Markets.Market.Resolve | src/domain/market.rs:162-172 | refuses a resolved market first, then an open one; succeeds exactly when Closed, setting only `resolved` and `outcome` |
| Markets.Market.TotalLiquidity | src/domain/market.rs:174-182 | the LMSR parameter when positive, else the sum of the legacy pools; positive whenever either is |
| Markets.NewLmsr | src/domain/market.rs:103-130 | nothing outstanding, empty legacy pools, open, unresolved, no outcome, the given parameter; Active until its end date |
| Markets.NewLmsrEvenOdds | src/domain/market.rs:103-130 | a fresh market quotes a probability of exactly 1/2 |
| Markets.ClosedStaysClosed | src/domain/market.rs:140-142 | a closed market stays closed at every later time |
| Markets.EarlyCloseDoesNotAuthorise | src/domain/market.rs:136-138 | an explicit close before the end date makes the market resolvable in status but not by anyone |
| Markets.AuthorisedResolveSucceeds | src/domain/market.rs:136-172 | whoever may resolve is the oracle, and their resolution succeeds |
| Markets.ResolveOnlyOnce | src/domain/market.rs:162-172 | after one successful resolution, a second is refused as already resolved, and the market stays Resolved |
| Markets.TradeShiftsOutstanding | src/domain/market.rs:184-186 | moving one side's count by `delta` moves the total outstanding by exactly `delta` |
| Positions.Position.AddShares | src/domain/position.rs:43-56 | a non-positive amount changes nothing; otherwise shares grow by the amount, the total cost grows by amount times price, and nothing else changes |
| Positions.AddSharesWeightedMean | src/domain/position.rs:89-99 | 10 at 0.5 plus 10 at 0.6 gives 20 at 0.55 |
| Positions.Position.RemoveShares | src/domain/position.rs:59-66 | fails exactly when asked for more than is held; otherwise only the share count drops, and it stays non-negative |
| Positions.RemoveAll | src/domain/position.rs:59-66 | removing the whole holding is allowed and leaves zero shares |
| Positions.AddThenRemove | src/domain/position.rs:43-66 | buying then selling the same shares restores the count |
| Positions.SharesStayNonNegative | src/domain/position.rs:43-66 | from a non-negative holding, any sequence of buys and sells keeps it non-negative |
| Positions.OpsKeepIdentity | src/domain/position.rs:43-66 | buys and sells never change the id, holder, market or side |
| Positions.Position.ProfitLoss | src/domain/position.rs:74-76 | the value at the price minus the cost basis |
| Positions.NoProfitAtCostBasis | src/domain/position.rs:74-76 | at its own average price a holding shows no profit |
| Positions.Position.PayoutIfWins | src/domain/position.rs:79-81 | the value at a price of 1 |
| Positions.PayoutIsCostPlusProfit | src/domain/position.rs:69-81 | the payout is the cost basis plus the profit at price 1 |
| Users.User.DeductBalance | src/domain/user.rs:26-36 | succeeds exactly when affordable (boundary included); then only the balance drops, by the amount, and it stays non-negative |
| Users.User.AddBalance | src/domain/user.rs:38-40 | the balance rises by exactly the amount and nothing else changes |
| Users.DeductThenAddRestores | src/domain/user.rs:30-40 | a successful debit followed by a credit of the same amount restores the account |
| Users.DeductExactBalance | src/domain/user.rs:30-36 | the whole balance can be debited, leaving zero |
| Pricing.Traded | src/web/handlers/trading.rs:97-100 | a trade moves the traded side's count by the amount and leaves the other side alone |
| Pricing.LmsrCostIncreasing | src/domain/pricing.rs:22-26 | the cost function grows strictly when a count grows and neither shrinks |
| Pricing.LmsrBuyCost | src/domain/pricing.rs:39-71 | refuses non-positive shares first, then a non-positive parameter; otherwise succeeds with a positive cost |
| Pricing.LmsrSellProceeds | src/domain/pricing.rs:84-126 | refuses non-positive shares, then a non-positive parameter, then more shares than the side's outstanding count; otherwise succeeds with positive proceeds |
| Pricing.LmsrRoundTrip | src/domain/pricing.rs:53-64 | selling what was just bought returns exactly the cost |
| Pricing.LmsrImpliedProbability | src/domain/pricing.rs:131-135 | strictly between 0 and 1, and exactly 1/2 when the counts are equal |
| Pricing.LmsrProbabilityMonotone | src/domain/pricing.rs:131-135 | raising the yes count or lowering the no count strictly raises the probability |
| Pricing.LmsrBuyMovesProbability | src/domain/pricing.rs:291-307 | buying yes strictly raises the probability, and buying no strictly lowers it |
| Pricing.LmsrInstantaneousPrice | src/domain/pricing.rs:139-147 | the yes price is the probability and the no price is its complement |
| Pricing.LmsrPricesSumToOne | src/domain/pricing.rs:139-147 | the yes and no prices sum to 1 |
| Pricing.AmmBuyCost | src/domain/pricing.rs:164-205 | refuses non-positive shares, then a non-positive pool, then shares that would empty the bought pool; otherwise a positive cost that keeps the pools' product |
| Pricing.BuyFromPool | src/domain/pricing.rs:176-198 | one side of the pool buy: refused when the pool would empty; otherwise a positive cost keeping the product |
| Pricing.AmmSellProceeds | src/domain/pricing.rs:217-252 | refuses non-positive shares, then a non-positive pool; otherwise positive proceeds that keep the pools' product |
| Pricing.AmmRoundTripYes | src/domain/pricing.rs:403-417 | selling back yes shares just bought from the pools returns exactly the cost |
| Pricing.AmmRoundTripNo | src/domain/pricing.rs:403-417 | selling back no shares just bought from the pools returns exactly the cost |
| Pricing.AmmRoundTrip | src/domain/pricing.rs:164-252 | selling back either side's shares just bought from the pools returns exactly the cost |
| Pricing.AmmImpliedProbability | src/domain/pricing.rs:257-263 | strictly between 0 and 1 for positive pools, and 1/2 for equal pools |
| Pricing.AmmCurrentPrice | src/domain/pricing.rs:266-274 | the yes price is the probability and the no price is its complement |
| Pricing.AmmBuyYesRaisesProbability | src/domain/pricing.rs:370-384 | buying yes from the pools strictly raises the probability |
| MarketRepo.MarketTable.Create | src/repository/market_repo.rs:16-67 | appends one fresh LMSR market with the next id, nothing outstanding and the given parameter |
| MarketRepo.MarketTable.FindById | src/repository/market_repo.rs:69-103 | the market with the id, or NotFound when there is none |
| MarketRepo.MarketTable.ListAll | src/repository/market_repo.rs:145-182 | every market exactly once, newest first |
| MarketRepo.MarketTable.ListActive | src/repository/market_repo.rs:105-143 | exactly the unresolved markets, newest first |
| MarketRepo.Unresolved | src/repository/market_repo.rs:108-112 | exactly the unresolved markets of the input |
| MarketRepo.UnresolvedKeepsOrder | src/repository/market_repo.rs:108-112 | filtering keeps the newest-first order |
| MarketRepo.CloseRow | src/repository/market_repo.rs:184-198 | sets the close time only on an unclosed, unresolved market; afterwards it is never Active |
| MarketRepo.CloseIdempotent | src/repository/market_repo.rs:184-198 | a second close changes nothing |
| MarketRepo.CloseEndsTrading | src/repository/market_repo.rs:184-198 | closing an Active market makes it Closed and changes nothing else |
| MarketRepo.MarketTable.Close | src/repository/market_repo.rs:184-198 | applies the guarded close to that market only; a missing id changes nothing |
| MarketRepo.SetPools | src/repository/market_repo.rs:200-219 | only the two legacy pools of that market change |
| MarketRepo.MarketTable.UpdatePools | src/repository/market_repo.rs:200-219 | overwrites exactly that market's two pools; NotFound, with no change, when absent |
| MarketRepo.PoolsAfterBuyKeepProduct | src/repository/market_repo.rs:200-219 | writing back the pools a legacy buy leaves keeps their product and touches nothing else |
| MarketRepo.SetOutstanding | src/repository/market_repo.rs:221-240 | only the two outstanding counts of that market change |
| MarketRepo.MarketTable.UpdateOutstandingShares | src/repository/market_repo.rs:221-240 | overwrites exactly that market's counts; NotFound, with no change, when absent |
| MarketRepo.ResolveRow | src/repository/market_repo.rs:242-263 | refuses a resolved market; otherwise sets only `resolved` and `outcome`, without checking that the market has closed |
| MarketRepo.ResolveRowAgrees | src/repository/market_repo.rs:242-263 | whenever the market's own rule resolves, the store does the same; the store alone also accepts a market still open |
| MarketRepo.MarketTable.Resolve | src/repository/market_repo.rs:242-263 | succeeds exactly for an existing unresolved market, changing only that row; otherwise a constraint violation with no change |
| UserRepo.UserTable.Create | src/repository/user_repo.rs:16-46 | a taken username is refused with "Username already exists" and no change; otherwise appends a user with the next id and balance 1000 |
| UserRepo.UserTable.FindById | src/repository/user_repo.rs:48-70 | the user with the id, or NotFound |
| UserRepo.UserTable.FindByUsername | src/repository/user_repo.rs:72-94 | the one user with the name, or NotFound |
| UserRepo.IndexOfUsername | src/repository/user_repo.rs:72-94 | finds a row holding the name, or reports that none does |
| UserRepo.UserTable.UpdateBalance | src/repository/user_repo.rs:96-114 | overwrites one balance; NotFound, with no change, when absent |
| UserRepo.Debited | src/repository/user_repo.rs:116-135 | only that user's balance changes, and it drops by the amount |
| UserRepo.UserTable.DeductBalance | src/repository/user_repo.rs:116-135 | debits only an existing user who can afford it; otherwise "Insufficient balance" with no change |
| UserRepo.Credited | src/repository/user_repo.rs:137-155 | only that user's balance changes, and it rises by the amount |
| UserRepo.CreditedTotal | src/repository/user_repo.rs:137-155 | a credit raises the sum of all balances by the amount, or leaves it when the user is absent |
| UserRepo.UserTable.AddBalance | src/repository/user_repo.rs:137-155 | credits one user; NotFound, with no change, when absent |
| PositionRepo.IndexOfKey | src/repository/position_repo.rs:62-101 | finds a row with the (user, market, side) key, or reports that none has it |
| PositionRepo.PositionTable.FindByUserMarketSide | src/repository/position_repo.rs:62-101 | the position with the key, or NotFound |
| PositionRepo.FoundOrCreated | src/repository/position_repo.rs:16-60 | an existing position is returned unchanged; otherwise a new empty one is appended with the next id; keys stay unique |
| PositionRepo.PositionTable.FindOrCreate | src/repository/position_repo.rs:16-60 | the existing position unchanged, or a new one with no shares and average price 0; afterwards the key is found |
| PositionRepo.KeyAtRow | src/repository/position_repo.rs:16-60 | in a valid table a key is found exactly at its row |
| PositionRepo.FoundOrCreatedIdempotent | src/repository/position_repo.rs:16-60 | a second find-or-create of the same key returns the same position and adds no row |
| PositionRepo.HeldBy | src/repository/position_repo.rs:103-139 | exactly the user's positions with shares |
| PositionRepo.PositionTable.FindByUser | src/repository/position_repo.rs:103-139 | exactly the user's positions with shares |
| PositionRepo.HeldIn | src/repository/position_repo.rs:141-176 | exactly the market's positions with shares |
| PositionRepo.PositionTable.FindByMarket | src/repository/position_repo.rs:141-176 | exactly the market's positions with shares |
| PositionRepo.SetHolding | src/repository/position_repo.rs:178-204 | only the shares and average price of that position change |
| PositionRepo.PositionTable.Update | src/repository/position_repo.rs:178-204 | overwrites exactly the shares and average price of that id; NotFound, with no change, when absent |
| SnapshotRepo.SnapshotLog.Create | src/repository/price_snapshot_repo.rs:40-67 | appends one snapshot holding exactly the given figures; that market's history gains it at the end and every other history is unchanged |
| SnapshotRepo.History | src/repository/price_snapshot_repo.rs:70-84 | exactly the snapshots of that market |
| SnapshotRepo.HistoryAppend | src/repository/price_snapshot_repo.rs:70-84 | appending extends only its own market's history, by exactly that snapshot |
| SnapshotRepo.SnapshotLog.GetHistory | src/repository/price_snapshot_repo.rs:70-84 | exactly the market's snapshots, in log order |
| SnapshotRepo.LastOf | src/repository/price_snapshot_repo.rs:87-110 | newest first, keep `limit`, reverse: the last `limit` in ascending order, or all of them |
| SnapshotRepo.SnapshotLog.GetHistoryLimit | src/repository/price_snapshot_repo.rs:87-110 | the last min(limit, n) snapshots of the history, still ascending |
| SnapshotRepo.Latest | src/repository/price_snapshot_repo.rs:113-128 | the last snapshot, or none for an empty history |
| SnapshotRepo.SnapshotLog.GetLatest | src/repository/price_snapshot_repo.rs:113-128 | the last element of the market's history, or none when it is empty |
| SnapshotRepo.LatestIsLastOfOne | src/repository/price_snapshot_repo.rs:87-128 | the latest snapshot is what a limit of 1 keeps |
| Trading.BuyChecks | src/web/handlers/trading.rs:48-88 | checks in order, each with its own error when the earlier ones pass: shares positive, side parses, market read (missing row or failed read is MarketNotFound), market trades, cost priced (its pricing error), user read (UserNotFound), user can afford; success iff all pass, carrying the market as read and the cost |
| Trading.TradeSnapshot | src/web/handlers/trading.rs:107-112 | yes is the new implied probability, no is its complement, and both lie strictly between 0 and 1 |
| Trading.RecordTrade | src/web/handlers/trading.rs:96-112 | writes the new counts, then appends the price snapshot unless that write fails |
| Trading.BuyShares | src/web/handlers/trading.rs:42-129 | a failed check returns its error with no table changed; otherwise the tables and result are those of `BuyOutcome` |
| Trading.BuyWrites | src/web/handlers/trading.rs:90-126 | the debit, count, snapshot and position writes end in the state `BuyOutcome` gives for the failing writes |
| Trading.BuyWritesStay | src/web/handlers/trading.rs:90-126 | no rollback: a debit made stays made and a count moved stays moved; success iff no write but the snapshot fails; a failed snapshot leaves the log alone |
| Trading.BuyChargesBuyer | src/web/handlers/trading.rs:90-94 | a buy whose writes all succeed, or whose only failing write is the ignored snapshot, takes exactly the cost from the buyer and nothing from anyone else |
| Trading.BuyMovesMarket | src/web/handlers/trading.rs:96-112 | a buy adds the shares to the bought side only and logs a probability moved toward that side |
| Trading.BuyGrowsHolding | src/web/handlers/trading.rs:114-126 | a buy whose writes all succeed, or whose only failing write is the ignored snapshot, grows the holding by the shares and its cost basis by the cost |
| Trading.SellChecks | src/web/handlers/trading.rs:137-177 | checks in order, each with its own error when the earlier ones pass: shares positive, side parses, market read (MarketNotFound), market trades, position read (PositionNotFound), position holds enough (InsufficientShares), proceeds priced (its pricing error); success iff all pass |
| Trading.SellShares | src/web/handlers/trading.rs:131-213 | a failed check returns its error with no table changed; otherwise the tables and result are those of `SellOutcome` |
| Trading.SellWrites | src/web/handlers/trading.rs:179-210 | the credit, count, snapshot and position writes end in the state `SellOutcome` gives; a credit to a missing user stops the sell |
| Trading.SoldWrites | src/web/handlers/trading.rs:185-210 | the writes after the credit end in the state `SoldOutcome` gives |
| Trading.ShrinkHolding | src/web/handlers/trading.rs:203-210 | the position loses the shares at an unchanged average price, unless the update fails |
| Trading.SellWritesStay | src/web/handlers/trading.rs:179-210 | no rollback: a credit made stays made whichever later write fails, moved counts stay moved when the position update fails; success iff the seller exists and neither the credit, the count nor the position write fails; every failure names its write |
| Trading.SellEffects | src/web/handlers/trading.rs:179-210 | a sell pays exactly the proceeds to the seller only, takes the shares off the sold side only, and shrinks the holding at an unchanged average price |
| Trading.BuyThenSellRestores | src/web/handlers/trading.rs:90-210 | selling straight back what was bought pays exactly the cost and restores the balances and the market's counts |
| Trading.ExactlyOneSideWins | src/web/handlers/trading.rs:234-243 | of a resolved market with an outcome, exactly one side has won, yes exactly when the outcome is true |
| Trading.DisplayOf | src/web/handlers/trading.rs:228-257 | total cost is shares times average price and is the loss if the side loses; payout is the shares; profit is the profit at price 1; the resolved flag is the market's; won iff the market is resolved with an outcome that matches the side, in which case the other side has not won |
| Trading.DisplayLinesShowHoldings | src/web/handlers/trading.rs:226-259 | every line shows a holding in its own market; one line per holding when every market exists |
| Trading.ViewPositions | src/web/handlers/trading.rs:215-267 | no page for a missing user; otherwise the lines for the user's holdings with shares, in order, and the user's balance and name |
| MarketHandlers.DescriptionOf | src/web/handlers/markets.rs:161-165 | an empty description is stored as none |
| MarketHandlers.CreateMarket | src/web/handlers/markets.rs:131-205 | refuses an empty question, then a duration under a day, then an unknown oracle or a failed oracle lookup, then a failed insert; success iff none of these; on success appends a market ending whole days after now with liquidity 100 and open for trading |
| MarketHandlers.HoldingsIn | src/web/handlers/markets.rs:252-259 | the lines are exactly those of the holdings on the market that hold shares |
| MarketHandlers.ViewerOf | src/web/handlers/markets.rs:242-262 | the viewer may resolve iff signed in and allowed; the lines are exactly the viewer's holdings on this market that hold shares |
| MarketHandlers.ParseOutcome | src/web/handlers/markets.rs:280-284 | exactly "yes" is true and exactly "no" is false; anything else is refused |
| MarketHandlers.WinningSide | src/web/handlers/markets.rs:326-330 | the outcome is true exactly when yes wins |
| MarketHandlers.OutcomeAgreesWithSide | src/web/handlers/markets.rs:280-284 | where the outcome parser accepts, the side parser agrees |
| MarketHandlers.OutcomeIsCaseSensitive | src/web/handlers/markets.rs:280-284 | "YES" is refused as an outcome though it parses as a side |
| MarketHandlers.Payout | src/web/handlers/markets.rs:333-342 | non-negative, positive exactly for a winning holding with shares, and then equal to its shares |
| MarketHandlers.Settle | src/web/handlers/markets.rs:333-346 | only balances change, and none goes down |
| MarketHandlers.SettleTotal | src/web/handlers/markets.rs:333-346 | when no credit fails, balances rise in total by exactly the winning shares |
| MarketHandlers.SettleCreditsEach | src/web/handlers/markets.rs:333-346 | when no credit fails, each user gains exactly what their winning holdings pay |
| MarketHandlers.SettleSkipsLosers | src/web/handlers/markets.rs:333-344 | a user with no winning holding is never credited |
| MarketHandlers.SettleAppend | src/web/handlers/markets.rs:333-346 | settling two runs of holdings is settling the first and then, unless it stopped, the second |
| MarketHandlers.SettleStopsAtFailure | src/web/handlers/markets.rs:338-341 | a failing credit stops settlement: earlier credits stay and no later holding is paid |
| MarketHandlers.ProcessPayouts | src/web/handlers/markets.rs:314-347 | a failed fetch changes nothing; otherwise the balances are those `Settle` gives, with success exactly when no credit failed |
| MarketHandlers.ResolveChecks | src/web/handlers/markets.rs:280-296 | checks in order, each with its own error when the earlier ones pass: outcome text (InvalidOutcome), market read (missing row or failed read is MarketNotFound), requester may resolve (NotOracle); success iff all pass |
| MarketHandlers.ResolveMarket | src/web/handlers/markets.rs:274-310 | a failed check changes nothing; otherwise the market is resolved with only `resolved` and `outcome` set, then settled, and stays resolved even when settlement stops; a failed credit is reported as a payout error naming the user whose credit failed |
| Api.Quote | src/web/handlers/api.rs:63-97 | NotFound for a missing market or a failed market read before the side is read, BadRequest for a bad side or a pricing error; on success the LMSR cost, payout = shares, profit = shares - cost, and average price times shares = cost |
| Api.QuoteIsWhatBuyCharges | src/web/handlers/api.rs:63-97 | whenever a buy passes its checks, the quote for it succeeds with exactly the cost the buy charges |
| Api.Points | src/web/handlers/api.rs:31-45 | one point per snapshot, in the same order |
| Api.PriceHistory | src/web/handlers/api.rs:25-46 | a read error is InternalServerError; otherwise one point per snapshot of that market, in order, copying both probabilities |
| Api.ChartGrowsByOnePoint | src/web/handlers/api.rs:31-45 | a new snapshot adds exactly its point at the end of the chart |

## Left out

- Authentication, sessions, password hashing, templates, HTML responses, routing, start-up and the connection pool are not modelled. The signed-in user is a plain parameter (`userId`, `requester`, `viewer`).
- `view_market`'s display figures are not modelled: percentages, the formatted end date and the liquidity shown. Only the viewer's part of the page is modelled (`MarketHandlers.ViewerOf`). `list_markets` and `new_market_page` are rendering only.
- Floating point is not modelled: the model uses `real`, with no rounding, NaN, infinity or `exp` overflow. A zero liquidity parameter, which makes the source divide by zero, is excluded by `requires b != 0.0` on the probability functions. This is why the source's "negative cost" and "negative proceeds" branches are unreachable in the model.
- `exp` and `ln` are known only by their laws (positive and increasing; increasing on the positive reals). No numeric value of the LMSR is modelled.
- Concurrency is not modelled. Each procedure is one sequential run with no interleaving, and there is no transaction.
- Store errors are modelled by `failing` sets and boolean flags, for the reads in the checks of `buy_shares`, `sell_shares`, `resolve_market`, `create_market` and `calculate_buy_cost` and for every write. `PositionLookup` stands for `find_or_create` failing as a whole with nothing written; an error from its own inner lookup, which it passes over before inserting, is not modelled (whether that insert would then clash with an existing key depends on a schema outside this model). Row decoding and timestamp parsing are not modelled.
- Timestamps are integers. RFC 3339 formatting, `chrono`'s overflow on a huge day count, and `updated_at` are not modelled.
- `ORDER BY created_at` is taken as insertion order. Markets are listed newest first, and snapshots are ordered by log position.
- `find_by_user` orders by `updated_at DESC`, which is not modelled. `PositionRepo.PositionTable.FindByUser` keeps table order and states membership only. `find_by_market` has no `ORDER BY` and keeps table order.
- `Sides.Parse` lower-cases ASCII letters only, where the source lower-cases all of Unicode. No non-ASCII character lower-cases to a letter of "yes" or "no", so the parse result is the same.
- `view_positions` panics on a missing user (`unwrap`); `Trading.ViewPositions` returns no page instead. A failed position read is taken as an empty list (`unwrap_or_default`) in both `view_positions` and `view_market`, and the model has no such read error.
- The entity mutators `Position::add_shares`, `Position::remove_shares`, `User::deduct_balance`, `User::add_balance` and `Market::resolve` work on local, owned copies that the handlers write back through the store. The model returns the updated value instead of updating a field in place; there is no aliasing to lose.
- `Market::new`, the legacy constructor that takes pools, is not part of this model; every market is created through `new_lmsr`.
- `Trading.BuyThenSellRestores` is stated over the table rows that `Trading.BuyOutcome` and `Trading.SellOutcome` write: the debited and credited users and the moved counts. It is not stated over the two outcome functions composed.
