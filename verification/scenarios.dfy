/** Two worked scenarios of the ticket lifecycle on concrete tables, and the
    consistency invariant from the opening tables under every run. */
module Scenarios {
  import opened Schema
  import opened Tiers
  import opened Lotto
  import opened Prizes
  import opened Lifecycle

  const Buyer: UserId := 1
  const Other: UserId := 2
  const FirstPrize: int := 600000

  function PrizeTable(): seq<PrizeType> {
    [PrizeType(1, Name(P1), Code(P1), FirstPrize),
     PrizeType(2, Name(P2), Code(P2), 200000),
     PrizeType(3, Name(P3), Code(P3), 80000),
     PrizeType(4, Name(L3), Code(L3), 4000),
     PrizeType(5, Name(L2), Code(L2), 2000)]
  }

  /** Three tickets priced 80, the buyer holding 500, one draw whose first
      prize is 111111. */
  function Opening(): Store {
    Store(
      [Ticket("111111", 80, Available), Ticket("222222", 80, Available), Ticket("333333", 80, Available)],
      [],
      map[Buyer := 500, Other := 500],
      [DrawResult(1000, "111111", "654321", "765432", "999", "11")],
      PrizeTable(),
      map[])
  }

  /** The buyer buys 111111 and pays 80; claiming it wins the first prize,
      which is credited once; a second claim is refused as already claimed
      and leaves the balance at 500 - 80 + reward. */
  lemma FirstPrizeClaimedOnce()
    ensures
      var bought := Purchase(Opening(), PurchaseRequest(Some(Buyer), Some("111111")));
      var req := ClaimRequest(Some(Buyer), Some("111111"), None);
      var claimed := Claim(bought.store, req);
      var again := Claim(claimed.store, req);
      && bought.reply == Ok(Sale(0, 0, 80))
      && bought.store.balances[Buyer] == 420
      && claimed.reply == Ok(Award(FirstPrize, Name(P1), "111111", 0))
      && claimed.store.balances[Buyer] == 500 - 80 + FirstPrize
      && again.reply == Err(AlreadyClaimed)
      && again.store.balances[Buyer] == 500 - 80 + FirstPrize
  {
  }

  /** A buyer holding 50 cannot buy a ticket priced 80: the ticket stays
      available and the balance stays 50. */
  lemma PurchaseWithoutFunds()
    ensures
      var s := Opening().(balances := map[Buyer := 50]);
      var out := Purchase(s, PurchaseRequest(Some(Buyer), Some("222222")));
      && out.reply == Err(InsufficientFunds)
      && out.store.tickets[1].status == Available
      && out.store.balances[Buyer] == 50
  {
  }

  /** The opening tables form a fresh period, so they stay consistent under
      every run of purchases, claims and top-ups: no ticket is sold without
      exactly one item, and no balance goes negative. */
  lemma {:induction false} OpeningStaysConsistent(reqs: seq<Request>)
    ensures Consistent(Run(Opening(), reqs))
  {
    FreshPeriodConsistent(Opening());
    RunKeepsConsistent(Opening(), reqs);
  }
}
