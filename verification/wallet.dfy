/** The wallet top-up handler (`POST /topup`). */
module Wallet {
  import opened Schema

  /** `amount` is the parsed amount in minor units, or None when it does not
      parse as a number. */
  datatype TopUpRequest = TopUpRequest(userId: Option<UserId>, amount: Option<int>)

  predicate ValidTopUp(req: TopUpRequest) {
    PresentId(req.userId) && req.amount.Some? && req.amount.value > 0
  }

  /** `POST /topup` as one transaction. A missing user id or an amount that is
      not a positive number is refused before anything is touched; a user id
      with no user row is rolled back as not found; otherwise that user alone
      is credited the amount and the reply carries the balance after the
      credit. */
  function TopUp(s: Store, req: TopUpRequest): (out: Step<int>)
    ensures out.reply.Err? ==> out.store == s
    ensures out.reply == Err(InvalidInput) <==> !ValidTopUp(req)
    ensures out.reply == Err(UserNotFound) <==> ValidTopUp(req) && req.userId.value !in s.balances
    ensures out.reply.Ok? <==> ValidTopUp(req) && req.userId.value in s.balances
    ensures out.reply.Ok? ==>
      var u := req.userId.value;
      && out.store.balances.Keys == s.balances.Keys
      && out.store.balances[u] == s.balances[u] + req.amount.value
      && out.reply.value == out.store.balances[u]
      && (forall v :: v in s.balances && v != u ==> out.store.balances[v] == s.balances[v])
      && out.store == s.(balances := out.store.balances)
  {
    if !ValidTopUp(req) then Step(Err(InvalidInput), s)
    else
      var u := req.userId.value;
      var credited := Adjust(s.balances, u, req.amount.value);
      // the update matched no row: the re-read finds nothing and the handler rolls back
      if u !in credited then Step(Err(UserNotFound), s)
      else Step(Ok(credited[u]), s.(balances := credited))
  }
}
