/** The ticket purchase handler (`POST /purchase`) and the listing of a
    user's unclaimed tickets (`GET /my`). */
module Lotto {
  import opened Schema

  datatype PurchaseRequest = PurchaseRequest(userId: Option<UserId>, ticketNumber: Option<string>)

  /** What a committed purchase did: the ticket row sold, the ownership item
      created and the price debited. The handler's success body is only a
      message naming the ticket number; `Sale` is the model's record of the
      commit, not the response body. */
  datatype Sale = Sale(ticketId: nat, itemId: nat, price: int)

  predicate ValidPurchase(req: PurchaseRequest) {
    PresentId(req.userId) && PresentText(req.ticketNumber)
  }

  /** The ticket row the handler locks: the first row of `lotto_tickets`
      carrying that number (the query has no ORDER BY and reads row 0). */
  function FindTicket(tickets: seq<Ticket>, number: string): (r: Option<nat>)
    ensures r.Some? ==> r.value < |tickets| && tickets[r.value].number == number
    ensures r.Some? ==> forall j :: 0 <= j < r.value ==> tickets[j].number != number
    ensures r.None? ==> forall j :: 0 <= j < |tickets| ==> tickets[j].number != number
  {
    FirstWhere(tickets, (t: Ticket) => t.number == number)
  }

  /** The commit of a purchase by `u`: the buyer is debited the price, the
      ticket alone turns `sold`, one item linking `u` to it is appended, and
      no other balance, ticket or table changes. */
  predicate SaleCommitted(s: Store, s': Store, u: UserId, sale: Sale) {
    && sale.ticketId < |s.tickets|
    && sale.itemId == |s.items|
    && sale.price == s.tickets[sale.ticketId].price
    && |s'.tickets| == |s.tickets|
    && s'.tickets[sale.ticketId] == s.tickets[sale.ticketId].(status := Sold)
    && (forall j :: 0 <= j < |s.tickets| && j != sale.ticketId ==> s'.tickets[j] == s.tickets[j])
    && s'.items == s.items + [Item(u, sale.ticketId, None)]
    && s'.balances.Keys == s.balances.Keys
    && u in s.balances
    && s'.balances[u] == s.balances[u] - sale.price
    && (forall v :: v in s.balances && v != u ==> s'.balances[v] == s.balances[v])
    && s'.draws == s.draws
    && s'.prizeTypes == s.prizeTypes
    && s'.prizes == s.prizes
  }

  /** `POST /purchase` as one transaction: it commits all of its effects or,
      on any rejection, leaves the store as it was. */
  function Purchase(s: Store, req: PurchaseRequest): (out: Step<Sale>)
    ensures out.reply.Err? ==> out.store == s
    ensures out.reply == Err(InvalidInput) <==> !ValidPurchase(req)
    ensures ValidPurchase(req) ==>
      var u := req.userId.value;
      var found := FindTicket(s.tickets, req.ticketNumber.value);
      && (out.reply == Err(TicketNotFound) <==> found.None?)
      && (out.reply == Err(AlreadySold) <==>
            found.Some? && s.tickets[found.value].status != Available)
      && (out.reply == Err(ServerError) <==>
            found.Some? && s.tickets[found.value].status == Available && u !in s.balances)
      && (out.reply == Err(InsufficientFunds) <==>
            found.Some? && s.tickets[found.value].status == Available && u in s.balances
            && s.balances[u] < s.tickets[found.value].price)
      && (out.reply.Ok? <==>
            found.Some? && s.tickets[found.value].status == Available && u in s.balances
            && s.balances[u] >= s.tickets[found.value].price)
      && (out.reply.Ok? ==> out.reply.value.ticketId == found.value)
    ensures out.reply.Ok? ==> SaleCommitted(s, out.store, req.userId.value, out.reply.value)
    ensures out.reply.Ok? ==> out.store.balances[req.userId.value] >= 0
  {
    if !ValidPurchase(req) then Step(Err(InvalidInput), s)
    else
      var u := req.userId.value;
      match FindTicket(s.tickets, req.ticketNumber.value)
      case None => Step(Err(TicketNotFound), s)
      case Some(id) =>
        var t := s.tickets[id];
        if t.status != Available then Step(Err(AlreadySold), s)
        // reading the balance of a missing user row throws inside the try block
        else if u !in s.balances then Step(Err(ServerError), s)
        else if s.balances[u] < t.price then Step(Err(InsufficientFunds), s)
        else
          var s' := s.(balances := Adjust(s.balances, u, -t.price),
                       tickets := s.tickets[id := t.(status := Sold)],
                       items := s.items + [Item(u, id, None)]);
          Step(Ok(Sale(id, |s.items|, t.price)), s')
  }

  /** One row of the `/my` listing. */
  datatype Listing = Listing(itemId: nat, ticketId: nat, ticketNumber: string, price: int, status: Status)

  /** Item `i` survives the inner join with its ticket row. */
  predicate Joined(s: Store, i: int) {
    0 <= i < |s.items| && s.items[i].ticket < |s.tickets|
  }

  /** `COALESCE(li.status, lt.status)`: the item's status, or its ticket's when unset. */
  function EffectiveStatus(s: Store, i: int): Status
    requires Joined(s, i)
  {
    match s.items[i].status
    case Some(st) => st
    case None => s.tickets[s.items[i].ticket].status
  }

  /** The rows `/my` must return for `user`: the user's joined items whose
      effective status is not `claimed`. */
  predicate Listed(s: Store, user: UserId, i: int) {
    Joined(s, i) && s.items[i].user == user && EffectiveStatus(s, i) != Claimed
  }

  function RowOf(s: Store, i: int): Listing
    requires Joined(s, i)
  {
    var t := s.tickets[s.items[i].ticket];
    Listing(i, s.items[i].ticket, t.number, t.price, EffectiveStatus(s, i))
  }

  /** The ids of the listed items below `n`, newest first. */
  function ListedBelow(s: Store, user: UserId, n: nat): (ids: seq<nat>)
    requires n <= |s.items|
    ensures forall k :: 0 <= k < |ids| ==> ids[k] < n && Listed(s, user, ids[k])
    ensures forall i :: 0 <= i < n && Listed(s, user, i) ==> i in ids
    ensures forall k, l :: 0 <= k < l < |ids| ==> ids[k] > ids[l]
    decreases n
  {
    if n == 0 then []
    else if Listed(s, user, n - 1) then [n - 1] + ListedBelow(s, user, n - 1)
    else ListedBelow(s, user, n - 1)
  }

  function IdsOf(rows: seq<Listing>): (ids: seq<nat>)
    ensures |ids| == |rows| && forall k :: 0 <= k < |rows| ==> ids[k] == rows[k].itemId
  {
    seq(|rows|, k requires 0 <= k < |rows| => rows[k].itemId)
  }

  /** `GET /my`: exactly the caller's items that are not claimed, each with
      its ticket's number and price, newest purchase first (purchase time
      grows with the item id). */
  function MyItems(s: Store, user: UserId): (rows: seq<Listing>)
    ensures forall k :: 0 <= k < |rows| ==>
      Listed(s, user, rows[k].itemId) && rows[k] == RowOf(s, rows[k].itemId)
    ensures forall i :: Listed(s, user, i) <==> i in IdsOf(rows)
    ensures forall k, l :: 0 <= k < l < |rows| ==> rows[k].itemId > rows[l].itemId
  {
    var ids := ListedBelow(s, user, |s.items|);
    var rows := seq(|ids|, k requires 0 <= k < |ids| => RowOf(s, ids[k]));
    assert IdsOf(rows) == ids;
    rows
  }
}
