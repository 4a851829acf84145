/** Prize tier resolution of the claim handler: a ticket number is compared
    with the five winning values of a draw, exact matches first, then the
    three- and two-digit suffixes, and the first test that succeeds decides. */
module Tiers {
  import opened Schema

  datatype Tier = P1 | P2 | P3 | L3 | L2

  /** Position of the tier in the order the handler tests them. */
  function Rank(t: Tier): nat {
    match t
    case P1 => 1
    case P2 => 2
    case P3 => 3
    case L3 => 4
    case L2 => 5
  }

  /** `prizes_type.code` of the tier. */
  function Code(t: Tier): string {
    match t
    case P1 => "P1"
    case P2 => "P2"
    case P3 => "P3"
    case L3 => "L3"
    case L2 => "L2"
  }

  /** `prizes_type.name` of the tier. */
  function Name(t: Tier): string {
    match t
    case P1 => "รางวัลที่ 1"
    case P2 => "รางวัลที่ 2"
    case P3 => "รางวัลที่ 3"
    case L3 => "รางวัลเลขท้าย 3 ตัว"
    case L2 => "รางวัลเลขท้าย 2 ตัว"
  }

  /** JavaScript `s.endsWith(suffix)`; every string ends with "". */
  predicate EndsWith(s: string, suffix: string) {
    |suffix| <= |s| && s[|s| - |suffix|..] == suffix
  }

  predicate IsExact(t: Tier) {
    t == P1 || t == P2 || t == P3
  }

  /** The test the handler applies for one tier, taken on its own. */
  predicate Matches(number: string, d: DrawResult, t: Tier) {
    match t
    case P1 => number == d.prize1
    case P2 => number == d.prize2
    case P3 => number == d.prize3
    case L3 => EndsWith(number, d.last3)
    case L2 => EndsWith(number, d.last2)
  }

  /** The tier awarded to `number` under draw `d`, or None for a losing ticket:
      the matching tier of least rank. */
  function Resolve(number: string, d: DrawResult): (r: Option<Tier>)
    ensures r.Some? ==> Matches(number, d, r.value)
    ensures forall t :: Matches(number, d, t) ==> r.Some? && Rank(r.value) <= Rank(t)
  {
    if number == d.prize1 then Some(P1)
    else if number == d.prize2 then Some(P2)
    else if number == d.prize3 then Some(P3)
    else if EndsWith(number, d.last3) then Some(L3)
    else if EndsWith(number, d.last2) then Some(L2)
    else None
  }

  /** Both directions of first-match-wins: `t` is awarded exactly when it
      matches and no tier tested before it matches. */
  lemma ResolveIsFirstMatch(number: string, d: DrawResult, t: Tier)
    ensures Resolve(number, d) == Some(t) <==>
      Matches(number, d, t) && forall u :: Rank(u) < Rank(t) ==> !Matches(number, d, u)
  {
  }

  /** A ticket that matches no tier is rejected. */
  lemma NoMatchNoTier(number: string, d: DrawResult)
    requires forall t :: !Matches(number, d, t)
    ensures Resolve(number, d) == None
  {
  }

  /** A ticket equal to one of the three exact winning values always gets an
      exact tier, whatever suffixes it also carries. */
  lemma ExactBeatsSuffix(number: string, d: DrawResult)
    requires number == d.prize1 || number == d.prize2 || number == d.prize3
    ensures Resolve(number, d).Some? && IsExact(Resolve(number, d).value)
  {
  }

  /** A ticket equal to prize1 that also ends in last2 gets P1 and nothing else. */
  lemma FirstPrizeWinsOverSuffix(number: string, d: DrawResult)
    requires number == d.prize1 && EndsWith(number, d.last2)
    ensures Resolve(number, d) == Some(P1)
  {
  }

  /** A suffix tier is awarded only to tickets equal to none of the exact values. */
  lemma SuffixTierOnlyWithoutExactMatch(number: string, d: DrawResult)
    requires Resolve(number, d).Some? && !IsExact(Resolve(number, d).value)
    ensures number != d.prize1 && number != d.prize2 && number != d.prize3
  {
  }

  /** `EndsWith` agrees with its textbook definition: some prefix followed
      by the suffix spells the string. */
  lemma {:induction false} EndsWithIffConcat(s: string, suffix: string)
    ensures EndsWith(s, suffix) <==> exists p: string :: p + suffix == s
  {
    if EndsWith(s, suffix) {
      var p := s[..|s| - |suffix|];
      assert p + suffix == s;
    }
    if exists p: string :: p + suffix == s {
      var p: string :| p + suffix == s;
      assert s[|s| - |suffix|..] == suffix by {
        assert |s| == |p| + |suffix|;
        forall k | 0 <= k < |suffix|
          ensures s[|s| - |suffix|..][k] == suffix[k]
        {
          assert s[|p| + k] == (p + suffix)[|p| + k];
        }
      }
    }
  }

  /** A ticket ending in `mid` ends in every suffix of `mid`. */
  lemma {:induction false} EndsWithTransitive(s: string, mid: string, suffix: string)
    requires EndsWith(s, mid) && EndsWith(mid, suffix)
    ensures EndsWith(s, suffix)
  {
  }

  /** When the two-digit value is a suffix of the three-digit one, a ticket
      awarded L3 also passes the L2 test, yet receives L3 alone. */
  lemma ThreeDigitWinnerNotPaidTwice(number: string, d: DrawResult)
    requires Resolve(number, d) == Some(L3)
    requires EndsWith(d.last3, d.last2)
    ensures Matches(number, d, L2)
    ensures Resolve(number, d) != Some(L2)
  {
    EndsWithTransitive(number, d.last3, d.last2);
  }
}
