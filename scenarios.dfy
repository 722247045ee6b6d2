/**
 * The concrete scenarios of the service's unit tests, stated over the
 * specification of `getEligibleOffers`. Condition values are built the way
 * the tests build them: `LocalDate.toString`, `BigDecimal.toString` and
 * `String.valueOf(boolean)`.
 */
module Scenarios {
  import opened Options
  import opened Model
  import opened CampaignService
  import IsoDate
  import Decimal
  import BooleanText
  import Digits
  import EligibilityProperties

  const TestOffer := Offer("test-offer", IsoDate.Date(2024, 3, 17))

  /** The campaign of the tests: one offer, the given conditions. */
  function TestCampaign(conditions: seq<Condition>): Campaign {
    Campaign("abc", "Test Campaign", IsoDate.Date(2024, 3, 10), IsoDate.Date(2024, 3, 17),
             Decimal.BigDecimal(1, 0), [TestOffer], conditions)
  }

  /** The customer of the tests, with country and deposit varied per test. */
  function TestProfile(country: string, deposit: Decimal.BigDecimal): Profile {
    Profile(country, IsoDate.Date(2024, 3, 12), deposit, true)
  }

  const Ten := Decimal.BigDecimal(10, 0)
  const One := Decimal.BigDecimal(1, 0)

  lemma NoActiveCampaigns()
    ensures EligibleOffers([], TestProfile("Poland", Ten)) == Ok([])
  {
  }

  lemma MatchingCountryGetsTheOffer()
    ensures EligibleOffers([TestCampaign([Condition("COUNTRY", "Poland")])], TestProfile("Poland", Ten))
      == Ok([TestOffer])
  {
    var campaign := TestCampaign([Condition("COUNTRY", "Poland")]);
    EligibilityProperties.CountryCondition(campaign, TestProfile("Poland", Ten), "Poland");
    assert [campaign][..0] == [];
    assert [] + [TestOffer] == [TestOffer];
  }

  lemma OtherCountryGetsNothing()
    ensures EligibleOffers([TestCampaign([Condition("COUNTRY", "Poland")])], TestProfile("US", Ten)) == Ok([])
  {
    var campaign := TestCampaign([Condition("COUNTRY", "Poland")]);
    EligibilityProperties.CountryCondition(campaign, TestProfile("US", Ten), "Poland");
    assert [campaign][..0] == [];
  }

  lemma DepositBelowMinimumGetsNothing()
    ensures EligibleOffers([TestCampaign([Condition("MIN_DEPOSIT_AMOUNT", Decimal.FormatDecimal(Ten))])],
                           TestProfile("Poland", One)) == Ok([])
  {
    var value := Decimal.FormatDecimal(Ten);
    var campaign := TestCampaign([Condition("MIN_DEPOSIT_AMOUNT", value)]);
    Decimal.ParseFormat(Ten);
    EligibilityProperties.MinDepositCondition(campaign, TestProfile("Poland", One), value);
    assert Decimal.Value(One) == 1.0 && Decimal.Value(Ten) == 10.0;
    assert [campaign][..0] == [];
  }

  lemma RegisteredBeforeThresholdGetsNothing()
    ensures EligibleOffers([TestCampaign([Condition("REGISTRATION_DATE", IsoDate.FormatIsoDate(IsoDate.Date(2024, 3, 13)))])],
                           TestProfile("Poland", Ten)) == Ok([])
  {
    var threshold := IsoDate.Date(2024, 3, 13);
    var value := IsoDate.FormatIsoDate(threshold);
    var campaign := TestCampaign([Condition("REGISTRATION_DATE", value)]);
    IsoDate.ParseFormat(threshold);
    EligibilityProperties.SingleCondition(campaign, TestProfile("Poland", Ten), Condition("REGISTRATION_DATE", value));
    assert [campaign][..0] == [];
  }

  lemma FirstDepositGetsTheOffer()
    ensures EligibleOffers([TestCampaign([Condition("IS_FIRST_DEPOSIT", BooleanText.BooleanToString(true))])],
                           TestProfile("Poland", Ten)) == Ok([TestOffer])
  {
    var value := BooleanText.BooleanToString(true);
    var campaign := TestCampaign([Condition("IS_FIRST_DEPOSIT", value)]);
    BooleanText.ParseBooleanToString(true);
    EligibilityProperties.FirstDepositCondition(campaign, TestProfile("Poland", Ten), value);
    assert [campaign][..0] == [];
    assert [] + [TestOffer] == [TestOffer];
  }

  lemma TenReads()
    ensures Decimal.ParseDecimal("10") == Some(Decimal.BigDecimal(10, 0))
  {
    assert Digits.Width(10) == 2;
    assert Digits.FixedWidth(1, 1) == "1";
    assert Digits.FixedWidth(10, 2) == "10";
    assert Decimal.FormatDecimal(Decimal.BigDecimal(10, 0)) == "10";
    Decimal.ParseFormat(Decimal.BigDecimal(10, 0));
  }

  lemma TenWithTwoDecimalsReads()
    ensures Decimal.ParseDecimal("10.00") == Some(Decimal.BigDecimal(1000, 2))
  {
    assert Digits.Width(1000) == 4;
    assert Digits.FixedWidth(1, 1) == "1";
    assert Digits.FixedWidth(10, 2) == "10";
    assert Digits.FixedWidth(100, 3) == "100";
    assert Digits.FixedWidth(1000, 4) == "1000";
    assert Decimal.FormatDecimal(Decimal.BigDecimal(1000, 2)) == "10.00";
    Decimal.ParseFormat(Decimal.BigDecimal(1000, 2));
  }

  /** What "10" and "10.00" read as differ in scale, and `compareTo` treats them as equal. */
  lemma ScaleIsIgnored()
    ensures Decimal.CompareTo(Decimal.BigDecimal(10, 0), Decimal.BigDecimal(1000, 2)) == 0
  {
    Decimal.TrailingZerosIgnored(Decimal.BigDecimal(10, 0), 2);
    assert Digits.Pow10(2) == 100;
    Decimal.CompareToIsValueOrder(Decimal.BigDecimal(10, 0), Decimal.BigDecimal(1000, 2));
  }

  /** A malformed condition after a failing one is never reached; before it, it aborts. */
  lemma UnknownKindOnlyWhenReached()
    ensures CheckConditions([Condition("COUNTRY", "Poland"), Condition("BOGUS", "x")], TestProfile("US", Ten)) == Ok(false)
    ensures CheckConditions([Condition("BOGUS", "x"), Condition("COUNTRY", "Poland")], TestProfile("US", Ten))
      == Err(UnknownKind("BOGUS"))
  {
  }

}
