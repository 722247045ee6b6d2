/**
 * What the eligibility engine promises, stated over the specification
 * functions of `CampaignService` (which its two methods are proved to compute).
 */
module EligibilityProperties {
  import opened Options
  import opened Model
  import opened CampaignService
  import IsoDate
  import Decimal
  import BooleanText

  // One campaign.

  /** A campaign without offers is never eligible, and none of its conditions is even read. */
  lemma NoOffersNeverEligible(campaign: Campaign, p: Profile)
    requires campaign.offers == []
    ensures Eligibility(campaign, p) == Ok(false)
  {
  }

  /** A campaign with offers and no conditions is always eligible. */
  lemma NoConditionsAlwaysEligible(campaign: Campaign, p: Profile)
    requires campaign.offers != [] && campaign.conditions == []
    ensures Eligibility(campaign, p) == Ok(true)
  {
  }

  /** A campaign with offers and a single condition is eligible exactly when that condition holds. */
  lemma SingleCondition(campaign: Campaign, p: Profile, c: Condition)
    requires campaign.offers != [] && campaign.conditions == [c]
    ensures Eligibility(campaign, p) == EvalCondition(c, p)
  {
    assert [c][1..] == [];
    assert CheckConditions([c][1..], p) == Ok(true);
    match EvalCondition(c, p)
    case Err(_) =>
    case Ok(b) =>
  }

  /** COUNTRY: exact, case-sensitive equality of the value and the customer's country. */
  lemma CountryCondition(campaign: Campaign, p: Profile, value: string)
    requires campaign.offers != [] && campaign.conditions == [Condition("COUNTRY", value)]
    ensures Eligibility(campaign, p) == Ok(value == p.country)
  {
    SingleCondition(campaign, p, Condition("COUNTRY", value));
  }

  /**
   * REGISTRATION_DATE: the value must be a date, and the customer passes when
   * registered on that date or later.
   */
  lemma RegistrationDateCondition(campaign: Campaign, p: Profile, value: string)
    requires campaign.offers != [] && campaign.conditions == [Condition("REGISTRATION_DATE", value)]
    ensures IsoDate.ParseIsoDate(value) == None ==> Eligibility(campaign, p) == Err(BadDate(value))
    ensures IsoDate.ParseIsoDate(value).Some? ==>
      Eligibility(campaign, p) ==
        Ok(IsoDate.DayCount(IsoDate.ParseIsoDate(value).value) <= IsoDate.DayCount(p.registrationDate))
  {
    SingleCondition(campaign, p, Condition("REGISTRATION_DATE", value));
    if IsoDate.ParseIsoDate(value).Some? {
      var threshold := IsoDate.ParseIsoDate(value).value;
      IsoDate.IsBeforeIsDayOrder(p.registrationDate, threshold);
    }
  }

  /**
   * MIN_DEPOSIT_AMOUNT: the value must be a decimal, and the customer passes
   * when the deposit is at least that number, whatever the scales.
   */
  lemma MinDepositCondition(campaign: Campaign, p: Profile, value: string)
    requires campaign.offers != [] && campaign.conditions == [Condition("MIN_DEPOSIT_AMOUNT", value)]
    ensures Decimal.ParseDecimal(value) == None ==> Eligibility(campaign, p) == Err(BadDecimal(value))
    ensures Decimal.ParseDecimal(value).Some? ==>
      Eligibility(campaign, p) ==
        Ok(Decimal.Value(p.depositAmount) >= Decimal.Value(Decimal.ParseDecimal(value).value))
  {
    SingleCondition(campaign, p, Condition("MIN_DEPOSIT_AMOUNT", value));
    if Decimal.ParseDecimal(value).Some? {
      Decimal.CompareToIsValueOrder(p.depositAmount, Decimal.ParseDecimal(value).value);
    }
  }

  /**
   * IS_FIRST_DEPOSIT: never an error; the customer passes when the flag equals
   * the value read as a boolean, so any text other than "true" demands false.
   */
  lemma FirstDepositCondition(campaign: Campaign, p: Profile, value: string)
    requires campaign.offers != [] && campaign.conditions == [Condition("IS_FIRST_DEPOSIT", value)]
    ensures Eligibility(campaign, p) == Ok(p.isFirstDeposit == BooleanText.ParseBoolean(value))
  {
    SingleCondition(campaign, p, Condition("IS_FIRST_DEPOSIT", value));
  }

  /** A condition whose name is none of the four kinds raises an error when it is reached. */
  lemma UnknownKindCondition(c: Condition, p: Profile)
    requires c.name !in {"COUNTRY", "REGISTRATION_DATE", "MIN_DEPOSIT_AMOUNT", "IS_FIRST_DEPOSIT"}
    ensures EvalCondition(c, p) == Err(UnknownKind(c.name))
  {
  }

  // Several conditions.

  predicate AllPass(conditions: seq<Condition>, p: Profile, k: nat)
    requires k <= |conditions|
  {
    forall j :: 0 <= j < k ==> EvalCondition(conditions[j], p) == Ok(true)
  }

  /** The conditions hold together exactly when each one holds: a conjunction. */
  lemma {:induction false} ConjunctionOfConditions(conditions: seq<Condition>, p: Profile)
    ensures CheckConditions(conditions, p) == Ok(true) <==> AllPass(conditions, p, |conditions|)
  {
    if conditions != [] {
      ConjunctionOfConditions(conditions[1..], p);
      if EvalCondition(conditions[0], p) == Ok(true) {
        assert AllPass(conditions, p, |conditions|) <==> AllPass(conditions[1..], p, |conditions| - 1) by {
          forall j | 0 <= j < |conditions| - 1 ensures conditions[1..][j] == conditions[j + 1] {}
        }
      }
    }
  }

  /**
   * The first condition that does not pass decides the outcome, `false` or
   * its error, whatever the conditions after it are.
   */
  lemma {:induction false} FirstNonPassingDecides(conditions: seq<Condition>, p: Profile, k: nat)
    requires k < |conditions| && AllPass(conditions, p, k)
    requires EvalCondition(conditions[k], p) != Ok(true)
    ensures CheckConditions(conditions, p) == EvalCondition(conditions[k], p)
  {
    if k > 0 {
      assert EvalCondition(conditions[0], p) == Ok(true);
      assert conditions[1..][k - 1] == conditions[k];
      FirstNonPassingDecides(conditions[1..], p, k - 1);
    }
  }

  /**
   * Appending conditions only matters when the first ones all pass: after a
   * failure or an error the rest, even malformed, is never examined.
   */
  lemma {:induction false} AppendConditions(first: seq<Condition>, rest: seq<Condition>, p: Profile)
    ensures CheckConditions(first + rest, p) ==
      if CheckConditions(first, p) == Ok(true) then CheckConditions(rest, p) else CheckConditions(first, p)
  {
    if first == [] {
      assert first + rest == rest;
    } else {
      assert (first + rest)[0] == first[0];
      assert (first + rest)[1..] == first[1..] + rest;
      AppendConditions(first[1..], rest, p);
    }
  }

  // Many campaigns.

  /** What one campaign adds to the result when it does not raise an error. */
  function Contribution(campaign: Campaign, p: Profile): seq<Offer> {
    if Eligibility(campaign, p) == Ok(true) then campaign.offers else []
  }

  /** The offers of the eligible campaigns, front to back. */
  function Concatenation(candidates: seq<Campaign>, p: Profile): seq<Offer> {
    if candidates == [] then [] else Contribution(candidates[0], p) + Concatenation(candidates[1..], p)
  }

  predicate NoErrors(candidates: seq<Campaign>, p: Profile) {
    forall i :: 0 <= i < |candidates| ==> Eligibility(candidates[i], p).Ok?
  }

  lemma {:induction false} ConcatenationOfSnoc(candidates: seq<Campaign>, last: Campaign, p: Profile)
    ensures Concatenation(candidates + [last], p) == Concatenation(candidates, p) + Contribution(last, p)
  {
    if candidates == [] {
      assert [] + [last] == [last];
    } else {
      assert (candidates + [last])[1..] == candidates[1..] + [last];
      ConcatenationOfSnoc(candidates[1..], last, p);
    }
  }

  /** One more campaign that raises no error adds its contribution at the end. */
  lemma AppendCampaign(init: seq<Campaign>, last: Campaign, p: Profile, offers: seq<Offer>)
    requires EligibleOffers(init, p) == Ok(offers)
    requires Eligibility(last, p).Ok?
    ensures EligibleOffers(init + [last], p) == Ok(offers + Contribution(last, p))
  {
    var candidates := init + [last];
    assert candidates[..|candidates| - 1] == init;
    assert candidates[|candidates| - 1] == last;
    assert offers + [] == offers;
  }

  /**
   * Without errors, the result is exactly the in-order concatenation of the
   * eligible campaigns' offers; ineligible campaigns add nothing.
   */
  lemma {:induction false} ResultIsConcatenation(candidates: seq<Campaign>, p: Profile)
    requires NoErrors(candidates, p)
    ensures EligibleOffers(candidates, p) == Ok(Concatenation(candidates, p))
  {
    if candidates != [] {
      var init, last := candidates[..|candidates| - 1], candidates[|candidates| - 1];
      assert init + [last] == candidates;
      assert forall i :: 0 <= i < |init| ==> init[i] == candidates[i];
      ResultIsConcatenation(init, p);
      AppendCampaign(init, last, p, Concatenation(init, p));
      ConcatenationOfSnoc(init, last, p);
    }
  }

  /**
   * With an error, the request fails with the error of the first campaign that
   * raises one, whatever comes after it.
   */
  lemma {:induction false} FirstErrorAborts(candidates: seq<Campaign>, p: Profile, k: nat)
    requires k < |candidates| && NoErrors(candidates[..k], p)
    requires Eligibility(candidates[k], p).Err?
    ensures EligibleOffers(candidates, p) == Err(Eligibility(candidates[k], p).error)
  {
    var prefix := candidates[..k + 1];
    assert prefix[..k] == candidates[..k];
    ResultIsConcatenation(candidates[..k], p);
    assert EligibleOffers(prefix, p) == Err(Eligibility(candidates[k], p).error);
    ErrorAborts(candidates, k + 1, p);
  }

  /** An offer is returned exactly when some eligible candidate campaign carries it. */
  lemma {:induction false} ReturnedOffers(candidates: seq<Campaign>, p: Profile, o: Offer)
    ensures o in Concatenation(candidates, p) <==>
      exists i :: 0 <= i < |candidates| && Eligibility(candidates[i], p) == Ok(true) && o in candidates[i].offers
  {
    if candidates != [] {
      ReturnedOffers(candidates[1..], p, o);
      if o in Concatenation(candidates[1..], p) {
        var i :| 0 <= i < |candidates| - 1 && Eligibility(candidates[1..][i], p) == Ok(true) && o in candidates[1..][i].offers;
        assert candidates[1..][i] == candidates[i + 1];
      }
      if exists i :: 0 <= i < |candidates| && Eligibility(candidates[i], p) == Ok(true) && o in candidates[i].offers {
        var i :| 0 <= i < |candidates| && Eligibility(candidates[i], p) == Ok(true) && o in candidates[i].offers;
        if i > 0 {
          assert candidates[1..][i - 1] == candidates[i];
        }
      }
    }
  }

  /** No candidates, no offers. */
  lemma NoCandidates(p: Profile)
    ensures EligibleOffers([], p) == Ok([])
  {
  }

}
