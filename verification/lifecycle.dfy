/** The three handlers composed into runs of requests: what every run keeps
    (ticket numbers and prices, the sold and claimed flags, the set of users),
    the consistency invariant between tickets, items and balances, no double
    sale, no double claim, and balance conservation. */
module Lifecycle {
  import opened Schema
  import opened Lotto
  import opened Prizes
  import opened Wallet

  datatype Request = Buy(purchase: PurchaseRequest) | Redeem(claim: ClaimRequest) | Deposit(topUp: TopUpRequest)

  function Handle(s: Store, r: Request): Store {
    match r
    case Buy(p) => Purchase(s, p).store
    case Redeem(c) => Claim(s, c).store
    case Deposit(t) => TopUp(s, t).store
  }

  /** The store after serving `reqs` one after another. */
  function Run(s: Store, reqs: seq<Request>): Store
    decreases |reqs|
  {
    if |reqs| == 0 then s else Run(Handle(s, reqs[0]), reqs[1..])
  }

  /** What `r` moves into (positive) or out of (negative) the wallet of `u`:
      the price of its committed purchase, the reward of its committed claim,
      or the amount of its committed top-up; zero for a rejected request. */
  function Movement(s: Store, r: Request, u: UserId): int {
    match r
    case Buy(p) =>
      var out := Purchase(s, p);
      if out.reply.Ok? && p.userId == Some(u) then -out.reply.value.price else 0
    case Redeem(c) =>
      var out := Claim(s, c);
      if out.reply.Ok? && c.userId == Some(u) then out.reply.value.reward else 0
    case Deposit(t) =>
      var out := TopUp(s, t);
      if out.reply.Ok? && t.userId == Some(u) then t.amount.value else 0
  }

  /** The sum of the movements reported to `u` along a run. */
  function Moved(s: Store, reqs: seq<Request>, u: UserId): int
    decreases |reqs|
  {
    if |reqs| == 0 then 0 else Movement(s, reqs[0], u) + Moved(Handle(s, reqs[0]), reqs[1..], u)
  }

  /** Every request, served or refused, moves `u`'s balance by exactly the
      price of its committed purchase, the reward of its committed claim, or
      the amount of its committed top-up. */
  lemma MovementIsExact(s: Store, r: Request, u: UserId)
    requires u in s.balances
    ensures Handle(s, r).balances.Keys == s.balances.Keys
    ensures Handle(s, r).balances[u] == s.balances[u] + Movement(s, r, u)
  {
  }

  /** Balance conservation: after any run, a user's balance is the initial
      balance minus the prices of the user's purchases plus the rewards of
      the user's claims plus the user's top-ups. */
  lemma {:induction false} Conservation(s: Store, reqs: seq<Request>, u: UserId)
    requires u in s.balances
    ensures Run(s, reqs).balances.Keys == s.balances.Keys
    ensures Run(s, reqs).balances[u] == s.balances[u] + Moved(s, reqs, u)
    decreases |reqs|
  {
    if |reqs| > 0 {
      MovementIsExact(s, reqs[0], u);
      Conservation(Handle(s, reqs[0]), reqs[1..], u);
    }
  }

  /** What no handler ever undoes: ticket rows keep their number and price
      and never become available again, items are only appended and keep
      their owner, ticket and `claimed` flag, the set of users and the draw
      and prize tables stay as they are. */
  predicate Advances(s: Store, s': Store) {
    && |s'.tickets| == |s.tickets|
    && (forall j :: 0 <= j < |s.tickets| ==>
          && s'.tickets[j].number == s.tickets[j].number
          && s'.tickets[j].price == s.tickets[j].price
          && (s.tickets[j].status != Available ==> s'.tickets[j].status != Available))
    && |s.items| <= |s'.items|
    && (forall i :: 0 <= i < |s.items| ==>
          && s'.items[i].user == s.items[i].user
          && s'.items[i].ticket == s.items[i].ticket
          && (s.items[i].status == Some(Claimed) ==> s'.items[i].status == Some(Claimed)))
    && s'.balances.Keys == s.balances.Keys
    && s'.draws == s.draws
    && s'.prizeTypes == s.prizeTypes
  }

  lemma HandleAdvances(s: Store, r: Request)
    ensures Advances(s, Handle(s, r))
  {
  }

  lemma {:induction false} RunAdvances(s: Store, reqs: seq<Request>)
    ensures Advances(s, Run(s, reqs))
    decreases |reqs|
  {
    if |reqs| > 0 {
      var s1 := Handle(s, reqs[0]);
      HandleAdvances(s, reqs[0]);
      RunAdvances(s1, reqs[1..]);
    }
  }

  /** The ticket a purchase picks depends only on the ticket numbers. */
  lemma SameNumbersSameTicket(ts: seq<Ticket>, ts': seq<Ticket>, number: string)
    requires |ts'| == |ts|
    requires forall j :: 0 <= j < |ts| ==> ts'[j].number == ts[j].number
    ensures FindTicket(ts', number) == FindTicket(ts, number)
  {
  }

  /** No two ticket rows carry the same number. */
  predicate UniqueNumbers(ts: seq<Ticket>) {
    forall j, k :: 0 <= j < k < |ts| ==> ts[j].number != ts[k].number
  }

  /** With unique numbers the lookup has only one row to choose from, so
      which matching row the database returns does not matter. */
  lemma UniqueNumberFindsItsRow(ts: seq<Ticket>, j: nat)
    requires UniqueNumbers(ts) && j < |ts|
    ensures FindTicket(ts, ts[j].number) == Some(j)
  {
  }

  /** No ticket row is sold twice: once a purchase sells a row, no later
      purchase, after any run of requests, succeeds on that row again. This
      holds whichever matching row the lookup returns, since a sale needs an
      available row and a sold row never becomes available again. */
  lemma {:induction false} NoRowSoldTwice(s: Store, req: PurchaseRequest, later: seq<Request>, again: PurchaseRequest)
    requires Purchase(s, req).reply.Ok?
    ensures var out := Purchase(Run(Purchase(s, req).store, later), again);
      out.reply.Ok? ==> out.reply.value.ticketId != Purchase(s, req).reply.value.ticketId
  {
    var s1 := Purchase(s, req).store;
    RunAdvances(s1, later);
  }

  /** No double sale: when ticket numbers are unique, once a purchase of a
      number succeeds, every later purchase of that number, after any run of
      requests, is refused as already sold. */
  lemma {:induction false} NoDoubleSale(s: Store, req: PurchaseRequest, later: seq<Request>, again: PurchaseRequest)
    requires UniqueNumbers(s.tickets)
    requires Purchase(s, req).reply.Ok?
    requires PresentId(again.userId) && again.ticketNumber == req.ticketNumber
    ensures Purchase(Run(Purchase(s, req).store, later), again).reply == Err(AlreadySold)
  {
    var s1 := Purchase(s, req).store;
    var s2 := Run(s1, later);
    var n := req.ticketNumber.value;
    RunAdvances(s1, later);
    SameNumbersSameTicket(s.tickets, s1.tickets, n);
    SameNumbersSameTicket(s1.tickets, s2.tickets, n);
    var id := Purchase(s, req).reply.value.ticketId;
    assert s1.tickets[id].status == Sold;
  }

  /** No double claim: once a claim of an item succeeds, no claim after any
      run of requests succeeds on that item again, so its reward is
      credited once. */
  lemma {:induction false} NoDoubleClaim(s: Store, req: ClaimRequest, later: seq<Request>, again: ClaimRequest)
    requires Claim(s, req).reply.Ok?
    ensures var out := Claim(Run(Claim(s, req).store, later), again);
      out.reply.Ok? ==> out.reply.value.itemId != Claim(s, req).reply.value.itemId
  {
    var s1 := Claim(s, req).store;
    RunAdvances(s1, later);
  }

  /** Consistency of the tables: a ticket is not available exactly when one
      item references it (every item points at a ticket that is no longer
      available, no ticket has two items, a ticket that is not available has
      an item), and no balance or reward is negative. */
  predicate Consistent(s: Store) {
    && (forall i :: 0 <= i < |s.items| ==>
          s.items[i].ticket < |s.tickets| && s.tickets[s.items[i].ticket].status != Available)
    && (forall i, j :: 0 <= i < j < |s.items| ==> s.items[i].ticket != s.items[j].ticket)
    && (forall t :: 0 <= t < |s.tickets| && s.tickets[t].status != Available ==>
          exists i :: 0 <= i < |s.items| && s.items[i].ticket == t)
    && (forall v :: v in s.balances ==> s.balances[v] >= 0)
    && (forall k :: 0 <= k < |s.prizeTypes| ==> s.prizeTypes[k].reward >= 0)
  }

  lemma PurchaseKeepsConsistent(s: Store, req: PurchaseRequest)
    requires Consistent(s)
    ensures Consistent(Purchase(s, req).store)
  {
    var out := Purchase(s, req);
    if out.reply.Ok? {
      var s' := out.store;
      var id := out.reply.value.ticketId;
      var last := |s.items|;
      assert s'.items[last].ticket == id;
      forall t | 0 <= t < |s'.tickets| && s'.tickets[t].status != Available
        ensures exists i :: 0 <= i < |s'.items| && s'.items[i].ticket == t
      {
        if t != id {
          var i :| 0 <= i < |s.items| && s.items[i].ticket == t;
          assert s'.items[i].ticket == t;
        }
      }
      forall i, j | 0 <= i < j < |s'.items|
        ensures s'.items[i].ticket != s'.items[j].ticket
      {
        if j == last {
          assert s.tickets[s.items[i].ticket].status != Available;
        }
      }
    }
  }

  lemma ClaimKeepsConsistent(s: Store, req: ClaimRequest)
    requires Consistent(s)
    ensures Consistent(Claim(s, req).store)
  {
    var out := Claim(s, req);
    if out.reply.Ok? {
      var s' := out.store;
      assert s'.tickets == s.tickets && |s'.items| == |s.items|;
      assert forall i :: 0 <= i < |s.items| ==> s'.items[i].ticket == s.items[i].ticket;
      forall t | 0 <= t < |s'.tickets| && s'.tickets[t].status != Available
        ensures exists i :: 0 <= i < |s'.items| && s'.items[i].ticket == t
      {
        var i :| 0 <= i < |s.items| && s.items[i].ticket == t;
        assert s'.items[i].ticket == t;
      }
    }
  }

  lemma TopUpKeepsConsistent(s: Store, req: TopUpRequest)
    requires Consistent(s)
    ensures Consistent(TopUp(s, req).store)
  {
  }

  /** The invariant holds after every run that starts from a consistent store. */
  lemma {:induction false} RunKeepsConsistent(s: Store, reqs: seq<Request>)
    requires Consistent(s)
    ensures Consistent(Run(s, reqs))
    decreases |reqs|
  {
    if |reqs| > 0 {
      match reqs[0] {
        case Buy(p) => PurchaseKeepsConsistent(s, p);
        case Redeem(c) => ClaimKeepsConsistent(s, c);
        case Deposit(t) => TopUpKeepsConsistent(s, t);
      }
      RunKeepsConsistent(Handle(s, reqs[0]), reqs[1..]);
    }
  }

  /** A freshly generated period: every ticket available, nothing sold or
      claimed, no negative balance or reward. */
  lemma FreshPeriodConsistent(s: Store)
    requires forall j :: 0 <= j < |s.tickets| ==> s.tickets[j].status == Available
    requires s.items == []
    requires forall v :: v in s.balances ==> s.balances[v] >= 0
    requires forall k :: 0 <= k < |s.prizeTypes| ==> s.prizeTypes[k].reward >= 0
    ensures Consistent(s)
  {
  }
}
