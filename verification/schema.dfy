/** The abstract database the three money-moving handlers work on.

    Every table is an immutable value: `lotto_tickets` and `lotto_item` are
    sequences whose index is the row id (ids are handed out in insertion order),
    `users.wallet_balance` is a map from user id to balance, `draw_results` and
    `prizes_type` are sequences in table order, and `prizes` is a map keyed on
    the lotto item id (the claim handler relies on a unique index on that
    column for its upsert).

    Money is an integer number of minor units (satang); the handlers' decimal
    parsing is not modelled. */
module Schema {

  /** An absent request field, or an SQL query that returned no row. */
  datatype Option<+T> = None | Some(value: T)

  type UserId = nat

  /** Status strings shared by `lotto_tickets.status` and `lotto_item.status`. */
  datatype Status = Available | Sold | Claimed

  /** A row of `lotto_tickets`. */
  datatype Ticket = Ticket(number: string, price: int, status: Status)

  /** A row of `lotto_item`: the ownership record linking a user to a ticket.
      `status` is `None` while the column still holds the value the purchase
      insert left to the table default. */
  datatype Item = Item(user: UserId, ticket: nat, status: Option<Status>)

  /** A row of `draw_results`: the timestamp `drawDate` (seconds) and the
      five winning values. */
  datatype DrawResult = DrawResult(
    drawDate: nat,
    prize1: string,
    prize2: string,
    prize3: string,
    last3: string,
    last2: string)

  /** A row of `prizes_type`, with its reward already converted to minor units. */
  datatype PrizeType = PrizeType(id: nat, name: string, code: string, reward: int)

  datatype Store = Store(
    tickets: seq<Ticket>,
    items: seq<Item>,
    balances: map<UserId, int>,
    draws: seq<DrawResult>,
    prizeTypes: seq<PrizeType>,
    prizes: map<nat, nat>)

  /** Every distinct rejection the handlers send, one per response branch. */
  datatype Failure =
    | InvalidInput        // 400: a required field is missing or the amount is not positive
    | TicketNotFound      // 404 in /purchase
    | AlreadySold         // 409 in /purchase
    | InsufficientFunds   // 402 in /purchase
    | ItemNotFound        // 404 in /claim
    | AlreadyClaimed      // 409 in /claim
    | NoDrawResult        // 400 in /claim
    | NotAWinner          // 400 in /claim
    | PrizeTypeMissing    // 500 in /claim: no prizes_type row for the tier
    | UserNotFound        // 404 in /topup
    | ServerError         // 500 from a handler's catch block

  datatype Reply<+T> = Ok(value: T) | Err(failure: Failure)

  /** One handler call: what it answers, and the store after commit or rollback. */
  datatype Step<+T> = Step(reply: Reply<T>, store: Store)

  /** JavaScript truthiness of a user id taken from a JSON body: absent and 0 are falsy. */
  predicate PresentId(id: Option<UserId>) {
    id.Some? && id.value != 0
  }

  /** JavaScript truthiness of a string field: absent and "" are falsy. */
  predicate PresentText(s: Option<string>) {
    s.Some? && s.value != ""
  }

  /** The first row of a table satisfying `p`: what a `SELECT ... WHERE`
      with `LIMIT 1` and no ORDER BY reads, taking rows in table order. */
  function FirstWhere<T>(rows: seq<T>, p: T -> bool): (r: Option<nat>)
    ensures r.Some? ==> r.value < |rows| && p(rows[r.value])
    ensures r.Some? ==> forall j :: 0 <= j < r.value ==> !p(rows[j])
    ensures r.None? ==> forall j :: 0 <= j < |rows| ==> !p(rows[j])
  {
    if |rows| == 0 then None
    else if p(rows[0]) then Some(0)
    else match FirstWhere(rows[1..], p)
      case None => None
      case Some(k) => Some(k + 1)
  }

  /** `UPDATE users SET wallet_balance = wallet_balance + delta WHERE user_id = u`:
      an update that matches no row changes nothing and raises no error. */
  function Adjust(balances: map<UserId, int>, u: UserId, delta: int): (r: map<UserId, int>)
    ensures r.Keys == balances.Keys
    ensures u in balances ==> r[u] == balances[u] + delta
    ensures forall v :: v in balances && v != u ==> r[v] == balances[v]
  {
    if u in balances then balances[u := balances[u] + delta] else balances
  }
}
