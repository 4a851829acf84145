/** The prize claim handler (`POST /claim`): find the caller's item for a
    ticket number, refuse a second claim, pick the draw, resolve the tier,
    look up its reward, then credit the wallet, record the prize and mark
    the item claimed, all in one transaction. */
module Prizes {
  import opened Schema
  import opened Tiers

  /** `drawDate` is the day number of the requested 'YYYY-MM-DD' date, or
      None when the field is absent or falsy. */
  datatype ClaimRequest = ClaimRequest(userId: Option<UserId>, ticketNumber: Option<string>, drawDate: Option<nat>)

  /** The success body: reward, prize name, ticket number and item id. */
  datatype Award = Award(reward: int, prizeName: string, ticketNumber: string, itemId: nat)

  predicate ValidClaim(req: ClaimRequest) {
    PresentId(req.userId) && PresentText(req.ticketNumber)
  }

  const SecondsPerDay: nat := 86400

  /** SQL `DATE(draw_date)` on a timestamp in seconds. */
  function Day(stamp: nat): nat {
    stamp / SecondsPerDay
  }

  /** Item `i` belongs to `user` and its ticket (after the join) carries `number`. */
  predicate Owns(s: Store, i: int, user: UserId, number: string) {
    && 0 <= i < |s.items|
    && s.items[i].user == user
    && s.items[i].ticket < |s.tickets|
    && s.tickets[s.items[i].ticket].number == number
  }

  /** The most recent owned item with id below `n`. */
  function LatestItemBelow(s: Store, user: UserId, number: string, n: nat): (r: Option<nat>)
    requires n <= |s.items|
    ensures r.Some? ==> r.value < n && Owns(s, r.value, user, number)
    ensures r.Some? ==> forall j :: r.value < j < n ==> !Owns(s, j, user, number)
    ensures r.None? ==> forall j :: 0 <= j < n ==> !Owns(s, j, user, number)
    decreases n
  {
    if n == 0 then None
    else if Owns(s, n - 1, user, number) then Some(n - 1)
    else LatestItemBelow(s, user, number, n - 1)
  }

  /** The item the handler locks: the caller's most recently purchased item
      whose ticket has that number (`ORDER BY purchased_at DESC LIMIT 1`;
      purchase time grows with the item id). */
  function FindItem(s: Store, user: UserId, number: string): (r: Option<nat>)
    ensures r.Some? ==> Owns(s, r.value, user, number)
    ensures r.Some? ==> forall j :: r.value < j ==> !Owns(s, j, user, number)
    ensures r.None? <==> forall j :: !Owns(s, j, user, number)
  {
    LatestItemBelow(s, user, number, |s.items|)
  }

  /** Draw `d` is eligible: any draw when no date was given, else one held on that day. */
  predicate InPeriod(d: DrawResult, date: Option<nat>) {
    date.None? || Day(d.drawDate) == date.value
  }

  /** An eligible draw of greatest timestamp among the first `n` rows. */
  function LatestDrawBelow(draws: seq<DrawResult>, date: Option<nat>, n: nat): (r: Option<nat>)
    requires n <= |draws|
    ensures r.Some? ==> r.value < n && InPeriod(draws[r.value], date)
    ensures r.Some? ==> forall j :: 0 <= j < n && InPeriod(draws[j], date) ==>
      draws[j].drawDate <= draws[r.value].drawDate
    ensures r.None? ==> forall j :: 0 <= j < n ==> !InPeriod(draws[j], date)
    decreases n
  {
    if n == 0 then None
    else
      var r := LatestDrawBelow(draws, date, n - 1);
      if InPeriod(draws[n - 1], date) && (r.None? || draws[r.value].drawDate < draws[n - 1].drawDate)
      then Some(n - 1)
      else r
  }

  /** `ORDER BY draw_date DESC LIMIT 1`, optionally restricted to one day:
      the latest eligible draw, or None when there is none. */
  function LatestDraw(draws: seq<DrawResult>, date: Option<nat>): (r: Option<nat>)
    ensures r.Some? ==> r.value < |draws| && InPeriod(draws[r.value], date)
    ensures r.Some? ==> forall j :: 0 <= j < |draws| && InPeriod(draws[j], date) ==>
      draws[j].drawDate <= draws[r.value].drawDate
    ensures r.None? <==> forall j :: 0 <= j < |draws| ==> !InPeriod(draws[j], date)
  {
    LatestDrawBelow(draws, date, |draws|)
  }

  /** `WHERE pt.name = ? OR pt.code = ?`: the row describes the tier by name or by code. */
  predicate Describes(p: PrizeType, t: Tier) {
    p.name == Name(t) || p.code == Code(t)
  }

  /** The `prizes_type` row the handler reads for a tier: the first that describes it. */
  function FindPrizeType(rows: seq<PrizeType>, t: Tier): (r: Option<nat>)
    ensures r.Some? ==> r.value < |rows| && Describes(rows[r.value], t)
    ensures r.Some? ==> forall j :: 0 <= j < r.value ==> !Describes(rows[j], t)
    ensures r.None? ==> forall j :: 0 <= j < |rows| ==> !Describes(rows[j], t)
  {
    FirstWhere(rows, (p: PrizeType) => Describes(p, t))
  }

  /** The commit of a claim of item `i` by `u` paid with prize type `p`: the
      reward goes to `u` alone (when `u` has a user row), item `i` alone turns
      `claimed`, the prize record of `i` is upserted to `p`, and nothing
      else changes. */
  predicate ClaimCommitted(s: Store, s': Store, u: UserId, i: nat, p: PrizeType) {
    && i < |s.items|
    && s'.tickets == s.tickets
    && |s'.items| == |s.items|
    && s'.items[i] == s.items[i].(status := Some(Claimed))
    && (forall j :: 0 <= j < |s.items| && j != i ==> s'.items[j] == s.items[j])
    && s'.balances.Keys == s.balances.Keys
    && (u in s.balances ==> s'.balances[u] == s.balances[u] + p.reward)
    && (forall v :: v in s.balances && v != u ==> s'.balances[v] == s.balances[v])
    && s'.prizes.Keys == s.prizes.Keys + {i}
    && s'.prizes[i] == p.id
    && (forall k :: k in s.prizes && k != i ==> s'.prizes[k] == s.prizes[k])
    && s'.draws == s.draws
    && s'.prizeTypes == s.prizeTypes
  }

  /** `POST /claim` as one transaction: each guard, in the handler's order,
      rejects with its own failure and leaves the store untouched; when all
      pass, the award is committed. */
  function Claim(s: Store, req: ClaimRequest): (out: Step<Award>)
    ensures out.reply.Err? ==> out.store == s
    ensures out.reply == Err(InvalidInput) <==> !ValidClaim(req)
    ensures ValidClaim(req) ==>
      var u := req.userId.value;
      var n := req.ticketNumber.value;
      var item := FindItem(s, u, n);
      var draw := LatestDraw(s.draws, req.drawDate);
      && (item.None? ==> out.reply == Err(ItemNotFound))
      && (item.Some? && s.items[item.value].status == Some(Claimed) ==>
            out.reply == Err(AlreadyClaimed))
      && (item.Some? && s.items[item.value].status != Some(Claimed) && draw.None? ==>
            out.reply == Err(NoDrawResult))
      && (item.Some? && s.items[item.value].status != Some(Claimed) && draw.Some? ==>
            var tier := Resolve(n, s.draws[draw.value]);
            && (tier.None? ==> out.reply == Err(NotAWinner))
            && (tier.Some? && FindPrizeType(s.prizeTypes, tier.value).None? ==>
                  out.reply == Err(PrizeTypeMissing))
            && (tier.Some? && FindPrizeType(s.prizeTypes, tier.value).Some? ==>
                  var p := s.prizeTypes[FindPrizeType(s.prizeTypes, tier.value).value];
                  && out.reply == Ok(Award(p.reward, p.name, n, item.value))
                  && ClaimCommitted(s, out.store, u, item.value, p)))
    ensures out.reply.Ok? ==>
      var i := out.reply.value.itemId;
      && ValidClaim(req)
      && Owns(s, i, req.userId.value, req.ticketNumber.value)
      && s.items[i].status != Some(Claimed)
      && out.store.items[i].status == Some(Claimed)
  {
    if !ValidClaim(req) then Step(Err(InvalidInput), s)
    else
      var u := req.userId.value;
      var n := req.ticketNumber.value;
      match FindItem(s, u, n)
      case None => Step(Err(ItemNotFound), s)
      case Some(i) =>
        if s.items[i].status == Some(Claimed) then Step(Err(AlreadyClaimed), s)
        else match LatestDraw(s.draws, req.drawDate)
        case None => Step(Err(NoDrawResult), s)
        case Some(di) =>
          match Resolve(n, s.draws[di])
          case None => Step(Err(NotAWinner), s)
          case Some(tier) =>
            match FindPrizeType(s.prizeTypes, tier)
            case None => Step(Err(PrizeTypeMissing), s)
            case Some(pi) =>
              var p := s.prizeTypes[pi];
              var s' := s.(prizes := s.prizes[i := p.id],
                           balances := Adjust(s.balances, u, p.reward),
                           items := s.items[i := s.items[i].(status := Some(Claimed))]);
              Step(Ok(Award(p.reward, p.name, n, i)), s')
  }

  /** A claim never changes which items a user owns under a ticket number. */
  lemma ClaimKeepsOwners(s: Store, req: ClaimRequest, u: UserId, n: string)
    ensures forall j :: Owns(Claim(s, req).store, j, u, n) <==> Owns(s, j, u, n)
  {
  }

  /** Claiming the same ticket again right after a successful claim is
      refused as already claimed: no second credit, no change at all. */
  lemma {:induction false} ClaimTwiceRefused(s: Store, req: ClaimRequest)
    requires Claim(s, req).reply.Ok?
    ensures Claim(Claim(s, req).store, req).reply == Err(AlreadyClaimed)
    ensures Claim(Claim(s, req).store, req).store == Claim(s, req).store
  {
    var s' := Claim(s, req).store;
    var u := req.userId.value;
    var n := req.ticketNumber.value;
    var i := Claim(s, req).reply.value.itemId;
    ClaimKeepsOwners(s, req, u, n);
    assert FindItem(s', u, n) == Some(i);
  }
}
