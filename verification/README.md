# Lottery wallet and ticket lifecycle

A Dafny model of the three money-moving handlers of a numbered-lottery
backend and its `/my` listing: `POST /purchase` and `GET /my`
(routes/lotto.js), `POST /claim` (routes/prizes.js) and `POST /topup`
(routes/wallet.js).

Each handler is one atomic step over an abstract store. The store holds:

- the tickets (`lotto_tickets`: number, price, status);
- the ownership items (`lotto_item`: user, ticket, status);
- the wallet balances (`users.wallet_balance`);
- the draw results (`draw_results`);
- the prize-type table (`prizes_type`: id, name, code, reward);
- the prize records (`prizes`, keyed on the item).

A step is a pure function from a store and a request to a reply and a new
store. On every rejection the store is returned unchanged. That models the
handler's rollback. It also models the guards that return before a
transaction starts.

Modules:

- `Schema` (schema.dfy): tables, failures, JavaScript truthiness of request
  fields, first-row lookup, the balance update.
- `Tiers` (tiers.dfy): prize tier resolution, first match wins in the order
  P1, P2, P3, L3, L2.
- `Lotto` (lotto.dfy): purchase and the `/my` listing.
- `Prizes` (prizes.dfy): the claim, with its item, draw and prize-type
  lookups.
- `Wallet` (wallet.dfy): top-up.
- `Lifecycle` (lifecycle.dfy): runs of requests. It proves balance
  conservation, no double sale, no double claim and a consistency invariant
  between tickets, items and balances.
- `Scenarios` (scenarios.dfy): two worked examples on concrete tables and
  the invariant from the opening tables.

Modelling choices:

- Row ids are sequence indices, handed out in insertion order.
- Money is an integer number of minor units.
- A request field is an `Option`. A user id of 0 and an empty string count
  as missing, as `!userId` and `!ticketNumber` do in JavaScript. A top-up
  amount that does not parse is `None`.
- `purchased_at` grows with the item id. So "latest purchase" is the
  highest item id, and `/my` lists items newest first by id.
- `DATE(draw_date)` is the timestamp in seconds divided by 86400.
- The purchase insert does not set `lotto_item.status`. The model leaves it
  `None`, and `/my` falls back to the ticket's status, as `COALESCE` does.
- Behaviour of the handlers worth noting:
  - a successful purchase replies with a message naming the ticket number
    only; the model's `Lotto.Sale` value records what the purchase committed
    (ticket row, item row, price), not the response body;
  - a successful claim replies with the reward, prize name, ticket number
    and item id, but not with a new balance;
  - the claim credit is an `UPDATE ... WHERE user_id = ?`, so a claim by a
    user id with no user row still succeeds and credits nobody;
  - a purchase by a user id with no user row fails inside the transaction
    (reading a field of an undefined row) and is reported as a server error.

## Model

| member | source | states |
|---|---|---|
| Schema.FirstWhere | routes/lotto.js:19-29 | the row the model takes for an unordered `LIMIT 1`/row-0 query is the first row in table order satisfying the condition; None exactly when no row does |
| Schema.Adjust | routes/prizes.js:104-107 | a balance update credits `delta` to that user only and creates no row; a user id with no row leaves every balance unchanged |
| Tiers.Resolve | routes/prizes.js:63-69 | the resolved tier matches the ticket and has rank no greater than any other matching tier; every matching ticket gets a tier |
| Tiers.ResolveIsFirstMatch | routes/prizes.js:63-69 | a tier is awarded if and only if it matches and no tier tested before it matches (both directions of first-match-wins) |
| Tiers.NoMatchNoTier | routes/prizes.js:63-71 | a ticket matching none of the five tests gets no tier |
| Tiers.ExactBeatsSuffix | routes/prizes.js:65-69 | a ticket equal to prize1, prize2 or prize3 always gets an exact tier, never a suffix tier |
| Tiers.FirstPrizeWinsOverSuffix | routes/prizes.js:65-69 | a ticket equal to prize1 that also ends in last2 gets P1 only |
| Tiers.SuffixTierOnlyWithoutExactMatch | routes/prizes.js:68-69 | a suffix tier is only awarded to tickets equal to none of the three exact values |
| Tiers.EndsWithIffConcat | routes/prizes.js:68-69 | the suffix test holds exactly when some prefix followed by the suffix spells the ticket number |
| Tiers.EndsWithTransitive | routes/prizes.js:68-69 | a number ending in a string ends in every suffix of that string |
| Tiers.ThreeDigitWinnerNotPaidTwice | routes/prizes.js:68-69 | when last2 is a suffix of last3, an L3 winner also passes the L2 test yet is awarded L3 alone |
| Lotto.FindTicket | routes/lotto.js:19-29 | the ticket looked up is the first ticket row with that number; None exactly when no row has it |
| Lotto.Purchase | routes/lotto.js:7-75 | missing user id or ticket number is refused as invalid; then unknown number gives not-found, a non-available ticket gives already-sold, an unknown buyer gives a server error, a balance below the price gives insufficient funds (balance equal to price succeeds); every refusal leaves the store unchanged; success debits the buyer exactly the price and leaves the balance non-negative, sets that ticket alone to sold, appends exactly one item linking buyer and ticket, and changes no other balance, ticket or table |
| Lotto.ListedBelow | routes/lotto.js:84-93 | the listed ids below a bound are exactly the user's joined, unclaimed items below it, in strictly decreasing order |
| Lotto.MyItems | routes/lotto.js:80-93 | `/my` returns exactly the caller's joined items whose effective status (item status, else ticket status) is not claimed, with their ticket number and price, newest first |
| Prizes.FindItem | routes/prizes.js:26-42 | the item claimed is the caller's latest item whose ticket has that number; None exactly when the caller owns no such item |
| Prizes.LatestDraw | routes/prizes.js:50-59 | the draw used is an eligible one (any draw, or one on the given day) of greatest timestamp; None exactly when no draw is eligible |
| Prizes.FindPrizeType | routes/prizes.js:77-89 | the prize type used is the first row whose name or code describes the tier; None exactly when no row does |
| Prizes.Claim | routes/prizes.js:15-120 | missing user id or ticket number is refused as invalid; then, in order, no owned item gives not-found, a claimed item gives already-claimed, no draw gives no-result, no matching tier gives not-a-winner, a missing prize type gives an internal error, and each refusal leaves the store unchanged; success credits that user alone by exactly the tier reward, sets that item alone to claimed, upserts one prize record for that item, changes nothing else, and only ever pays an owned item that was not yet claimed |
| Prizes.ClaimTwiceRefused | routes/prizes.js:44-47 | a second claim right after a successful one is refused as already claimed and changes nothing |
| Wallet.TopUp | routes/wallet.js:8-42 | missing user id or an amount that is not a number greater than 0 is refused as invalid; an unknown user is rolled back as not found; both leave the store unchanged; success credits that user alone by exactly the amount, changes nothing else, and replies with the balance after the credit |
| Lifecycle.MovementIsExact | routes/lotto.js:51-54 | each request moves a user's balance by exactly the price of its committed purchase, the reward of its committed claim, or the amount of its committed top-up (zero when refused), and never adds or removes a user; besides this debit it covers the claim credit (routes/prizes.js lines 104-107) and the top-up credit (routes/wallet.js lines 22-25) |
| Lifecycle.Conservation | routes/lotto.js:51-54 | after any run of purchases, claims and top-ups, a user's balance equals the initial balance minus the prices of the user's purchases (this debit) plus the user's rewards (routes/prizes.js lines 104-107) and top-ups (routes/wallet.js lines 22-25) |
| Lifecycle.HandleAdvances | routes/lotto.js:57-60 | no handler changes a ticket's number or price, makes a ticket available again, rewrites an item's owner or ticket, unclaims an item, adds or removes users, or touches the draws or prize types |
| Lifecycle.RunAdvances | routes/lotto.js:51-67 | the same holds across any run of requests: the purchase writes (these lines), the claim writes (routes/prizes.js lines 94-111) and the top-up write (routes/wallet.js lines 22-25) never undo a sale, a claim, a ticket's number or price, or the set of users |
| Lifecycle.SameNumbersSameTicket | routes/lotto.js:19-29 | the ticket a purchase looks up depends only on the ticket numbers |
| Lifecycle.UniqueNumberFindsItsRow | routes/lotto.js:19-29 | when ticket numbers are unique, the ticket lookup returns the one row with that number, so the row order of the query does not matter |
| Lifecycle.NoRowSoldTwice | routes/lotto.js:30-33 | once a purchase sells a ticket row, no later purchase, after any run, succeeds on that row again, whichever matching row the lookup returns |
| Lifecycle.NoDoubleSale | routes/lotto.js:30-33 | when ticket numbers are unique, once a purchase of a number succeeds, every later purchase of that number, after any run, is refused as already sold |
| Lifecycle.NoDoubleClaim | routes/prizes.js:44-47 | once a claim on an item succeeds, no later claim, after any run, succeeds on that item again |
| Lifecycle.PurchaseKeepsConsistent | routes/lotto.js:51-67 | a purchase keeps the invariant: a ticket is not available exactly when one item references it (every item points at a non-available ticket, no ticket has two items, a non-available ticket has an item), and no balance or reward is negative |
| Lifecycle.ClaimKeepsConsistent | routes/prizes.js:94-111 | a claim keeps the same invariant |
| Lifecycle.TopUpKeepsConsistent | routes/wallet.js:13-25 | a top-up keeps the same invariant |
| Lifecycle.RunKeepsConsistent | routes/lotto.js:30-67 | the invariant holds after any run from a consistent store |
| Scenarios.OpeningStaysConsistent | routes/lotto.js:30-67 | from the opening tables (all tickets available, no items, no negative balance or reward), every run of requests leaves a consistent store |
| Scenarios.FirstPrizeClaimedOnce | routes/prizes.js:63-120 | buying 111111 at 80 from 500 and claiming the first prize credits the reward once; a second claim is refused and the balance stays 500 - 80 + reward |
| Scenarios.PurchaseWithoutFunds | routes/lotto.js:43-46 | with balance 50 and price 80 the purchase fails for insufficient funds; the ticket stays available and the balance stays 50 |

## Left out

- Express routing, the MySQL pool and transaction mechanics (Server.js,
  db.js). Each handler is one atomic step; row locks and concurrent
  interleavings are not modelled. Concurrent requests are taken to be
  serialised.
- HTTP status codes and the Thai response messages. Each response branch
  maps to its own `Failure` value.
- `parseFloat`, the comma-stripping cast of `prizes_type.reward` and
  fractional amounts. Money is integral minor units; the reward is given.
- A `ticketNumber` sent as a JSON number. The string `endsWith` would then
  throw and the claim would end in the catch block. The model takes ticket
  numbers as strings.
- The catch-block server errors that come from database failures, such as a
  lost connection or a constraint violation. The database is not modelled.
  The one catch-block error that follows from the data, the purchase by an
  unknown user, is modelled.
- SQL collation and type conversion in comparisons. The `ticket_number = ?`
  comparisons and the prize-type lookup `pt.name = ? OR pt.code = ?`
  (routes/prizes.js:81) are modelled as exact string equality, although
  MySQL's default collations ignore case: a `prizes_type` row with code
  `p1` is missed by the model (`PrizeTypeMissing`) where such a database
  would pay the claim. The user-id comparisons (`li.userid = ?`,
  `user_id = ?`) are modelled as equality of natural numbers; the
  conversion SQL applies when a JSON string id meets a numeric column is
  not modelled.
- Ties in `purchased_at` or `draw_date`. SQL may return either row; the model
  picks the highest item id and the first draw row of greatest timestamp.
- Timestamps written by `NOW()` (`purchased_at`, `updated_at`).
- Lotto.MyItems: the caller is taken as an authenticated user id. The
  handler reads `req.user.id` before its `try` block (routes/lotto.js:81),
  and nothing in Server.js sets `req.user`, so as wired the route throws
  before it reaches the query. The model describes the query it would run.
  The rows omit `purchasedAt` because timestamps are not modelled. The
  `status` of a freshly bought item is the ticket's status (`sold`), because
  the `lotto_item.status` column default is not known.
- Row choice in the ticket and prize-type lookups (routes/lotto.js:19-29,
  routes/prizes.js:77-89): these queries have no ORDER BY, so the database
  may return any matching row. The model takes the first row in table
  order. When two ticket rows share a number, a real purchase might get the
  available one where the model gets the sold one; `Lifecycle.NoDoubleSale`
  therefore assumes unique numbers, and `Lifecycle.NoRowSoldTwice` states
  the guarantee that holds for any row choice.
- Draw generation, system reset and the admin listing (routes/admin.js). Its
  draw and reset handlers have empty bodies and contain no logic to model.
- Registration and login (routes/auth.js) and the read-only result and user
  endpoints (routes/results.js, routes/users.js).
