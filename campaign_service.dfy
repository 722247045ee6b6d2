/**
 * The offer-eligibility engine of `CampaignService`: one campaign is checked
 * against a customer's profile condition by condition, and the offers of
 * every campaign that passes are collected in order.
 *
 * The Java code signals a malformed condition by throwing; here every
 * operation that can throw returns a `Result`, and an `Err` aborts the whole
 * request just as the uncaught exception does.
 */
module CampaignService {
  import opened Options
  import opened Model
  import IsoDate
  import Decimal
  import BooleanText
  import opened ConditionTypes

  /** What the caller knows about the customer. */
  datatype Profile = Profile(
    country: string,
    registrationDate: IsoDate.ValidDate,
    depositAmount: Decimal.BigDecimal,
    isFirstDeposit: bool)

  /** The exceptions a condition can raise. */
  datatype EvalError =
    | UnknownKind(name: string)   // IllegalArgumentException from ConditionType.valueOf
    | BadDate(text: string)       // DateTimeParseException from LocalDate.parse
    | BadDecimal(text: string)    // NumberFormatException from new BigDecimal

  datatype Result<T> = Ok(value: T) | Err(error: EvalError)

  /**
   * One arm of the `switch`: whether a single condition holds for the profile.
   * It throws exactly for an unknown name, an unreadable date threshold and an
   * unreadable amount threshold; an IS_FIRST_DEPOSIT condition never throws.
   */
  function EvalCondition(c: Condition, p: Profile): (r: Result<bool>)
    ensures r == Err(UnknownKind(c.name)) <==> ValueOf(c.name) == None
    ensures r == Err(BadDate(c.value)) <==>
      ValueOf(c.name) == Some(RegistrationDate) && IsoDate.ParseIsoDate(c.value) == None
    ensures r == Err(BadDecimal(c.value)) <==>
      ValueOf(c.name) == Some(MinDepositAmount) && Decimal.ParseDecimal(c.value) == None
    ensures r.Err? ==> r.error in {UnknownKind(c.name), BadDate(c.value), BadDecimal(c.value)}
  {
    match ValueOf(c.name)
    case None => Err(UnknownKind(c.name))
    case Some(Country) => Ok(c.value == p.country)
    case Some(RegistrationDate) =>
      (match IsoDate.ParseIsoDate(c.value)
       case None => Err(BadDate(c.value))
       case Some(threshold) => Ok(!IsoDate.IsBefore(p.registrationDate, threshold)))
    case Some(MinDepositAmount) =>
      (match Decimal.ParseDecimal(c.value)
       case None => Err(BadDecimal(c.value))
       case Some(minimum) => Ok(!(Decimal.CompareTo(p.depositAmount, minimum) < 0)))
    case Some(IsFirstDeposit) =>
      Ok(p.isFirstDeposit == BooleanText.ParseBoolean(c.value))
  }

  /**
   * The conditions in stored order: the first one that fails decides `false`,
   * the first one that throws decides the error, and the ones after it are
   * never looked at.
   */
  function CheckConditions(conditions: seq<Condition>, p: Profile): Result<bool> {
    if conditions == [] then Ok(true)
    else
      match EvalCondition(conditions[0], p)
      case Err(e) => Err(e)
      case Ok(false) => Ok(false)
      case Ok(true) => CheckConditions(conditions[1..], p)
  }

  /** `isCustomerEligible` as a value: a campaign without offers is rejected before any condition. */
  function Eligibility(campaign: Campaign, p: Profile): Result<bool> {
    if |campaign.offers| == 0 then Ok(false) else CheckConditions(campaign.conditions, p)
  }

  /** `isCustomerEligible`: the loop over the conditions with its early returns. */
  method IsCustomerEligible(campaign: Campaign, p: Profile) returns (r: Result<bool>)
    ensures r == Eligibility(campaign, p)
  {
    if |campaign.offers| == 0 {
      return Ok(false);
    }
    var conditions := campaign.conditions;
    for i := 0 to |conditions|
      invariant CheckConditions(conditions[i..], p) == CheckConditions(conditions, p)
    {
      var verdict := EvalCondition(conditions[i], p);
      if verdict != Ok(true) {
        return verdict;
      }
      assert conditions[i..][1..] == conditions[i + 1..];
    }
    return Ok(true);
  }

  /**
   * The offers `getEligibleOffers` returns for the candidates: each eligible
   * campaign's offers appended in order; the first error aborts the request.
   */
  function EligibleOffers(candidates: seq<Campaign>, p: Profile): Result<seq<Offer>> {
    if candidates == [] then Ok([])
    else
      var last := candidates[|candidates| - 1];
      match EligibleOffers(candidates[..|candidates| - 1], p)
      case Err(e) => Err(e)
      case Ok(offers) =>
        match Eligibility(last, p)
        case Err(e) => Err(e)
        case Ok(eligible) => Ok(if eligible then offers + last.offers else offers)
  }

  /** Once a prefix of the candidates has raised an error, the whole request fails with it. */
  lemma {:induction false} ErrorAborts(candidates: seq<Campaign>, k: nat, p: Profile)
    requires k <= |candidates|
    requires EligibleOffers(candidates[..k], p).Err?
    ensures EligibleOffers(candidates, p) == EligibleOffers(candidates[..k], p)
    decreases |candidates| - k
  {
    if k < |candidates| {
      assert candidates[..k + 1][..k] == candidates[..k];
      ErrorAborts(candidates, k + 1, p);
    } else {
      assert candidates[..k] == candidates;
    }
  }

  /**
   * `getEligibleOffers` after the repository call: the candidates are walked in
   * order and each eligible campaign's offers are added to the result list.
   */
  method GetEligibleOffers(candidates: seq<Campaign>, p: Profile) returns (r: Result<seq<Offer>>)
    ensures r == EligibleOffers(candidates, p)
  {
    var eligibleOffers: seq<Offer> := [];
    for i := 0 to |candidates|
      invariant EligibleOffers(candidates[..i], p) == Ok(eligibleOffers)
    {
      var campaign := candidates[i];
      assert candidates[..i + 1][..i] == candidates[..i];
      var eligible := IsCustomerEligible(campaign, p);
      match eligible
      case Err(e) =>
        ErrorAborts(candidates, i + 1, p);
        return Err(e);
      case Ok(b) =>
        if b {
          eligibleOffers := eligibleOffers + campaign.offers;
        }
    }
    assert candidates[..|candidates|] == candidates;
    return Ok(eligibleOffers);
  }

}
