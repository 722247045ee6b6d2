# Offer eligibility engine of `bonus_campaign`, in Dafny

This project models the decision logic of the bonus-campaign service: given a
customer's country, registration date, deposit amount and first-deposit flag,
and the candidate campaigns the repository returned, `CampaignService`
decides campaign by campaign whether the customer is eligible and collects
the offers of the eligible ones.

- `campaign_service.dfy` (module `CampaignService`): the customer profile, the
  three exceptions a condition can raise (as `EvalError`), the `switch` over
  one condition (`EvalCondition`), the condition loop as a specification
  function (`CheckConditions`, `Eligibility`), and the two service methods.
  `IsCustomerEligible` runs the loop with its early returns and is proved to
  compute `Eligibility`. `GetEligibleOffers` grows the result list campaign by
  campaign and is proved to compute `EligibleOffers`.
- `eligibility_properties.dfy`: what the engine promises. It covers each kind
  of condition, the conjunction with its short-circuit, and the aggregated
  result as the concatenation of the eligible campaigns' offers.
- `model.dfy`: the `Campaign`, `Offer` and `Condition` records.
- `condition_type.dfy`: the four condition kinds and `ConditionType.valueOf`.
  The enum's own source file is not part of this model. Its constants are the
  four names the service switches on and the tests use.
- `iso_date.dfy`: `LocalDate` values, `isBefore`, and the `YYYY-MM-DD` form
  read by `LocalDate.parse` and written by `LocalDate.toString`. It includes
  leap years and month lengths.
- `decimal.dfy`: `BigDecimal` as an unscaled integer and a scale,
  `compareTo`, and the grammar of `new BigDecimal(String)`.
- `boolean_text.dfy`: `Boolean.parseBoolean` and `String.valueOf(boolean)`.
- `digits.dfy`, `options.dfy`: digit strings and `Option`, used by the parsers.
- `scenarios.dfy`: the six unit-test scenarios, plus the equality of "10" and
  "10.00" under `compareTo`.

Exceptions become results: an unknown condition name, an unparseable date and
an unparseable decimal each give an `Err`. An `Err` from any campaign aborts
the whole request with no partial result, as the uncaught exception does.

Three points of the code's behaviour the model keeps:
- `IS_FIRST_DEPOSIT` text that is not a boolean reads as false and is not an
  error: `Boolean.parseBoolean` reads every text other than "true" (in any
  case) as false.
- Condition values stay text and are parsed each time a condition is
  evaluated.
- An unknown kind or an unparseable value throws, and the exception ends the
  whole request.

Dates held by offers, campaigns and the profile are `IsoDate.ValidDate`: like
a `LocalDate`, they always exist in the calendar.

## Model

| member | source | states |
|---|---|---|
| `CampaignService.IsCustomerEligible` | src/main/java/org/example/service/CampaignService.java:31-61 | the loop with early returns yields exactly `Eligibility`: `false` for a campaign without offers, otherwise the first failing condition's `false` or error, else `true` |
| `CampaignService.GetEligibleOffers` | src/main/java/org/example/service/CampaignService.java:19-29 | the accumulating loop returns exactly `EligibleOffers` of the candidates, including aborting with the first error |
| `CampaignService.ErrorAborts` | src/main/java/org/example/service/CampaignService.java:23-27 | once the candidates up to some point have raised an error, later campaigns change nothing and the request fails with that error |
| `CampaignService.EvalCondition` | src/main/java/org/example/service/CampaignService.java:37-58 | the `switch` over one condition: it raises `UnknownKind` iff the name is none of the four kinds, `BadDate` iff a REGISTRATION_DATE value does not parse, `BadDecimal` iff a MIN_DEPOSIT_AMOUNT value does not parse, and no other error |
| `EligibilityProperties.NoOffersNeverEligible` | src/main/java/org/example/service/CampaignService.java:33-35 | a campaign with no offers is `Ok(false)` whatever its conditions, even malformed ones |
| `EligibilityProperties.NoConditionsAlwaysEligible` | src/main/java/org/example/service/CampaignService.java:36-60 | a campaign with offers and no conditions is `Ok(true)` |
| `EligibilityProperties.SingleCondition` | src/main/java/org/example/service/CampaignService.java:36-60 | with offers and one condition, the campaign's verdict is that condition's verdict |
| `EligibilityProperties.CountryCondition` | src/main/java/org/example/service/CampaignService.java:38-42 | a COUNTRY condition passes iff its value equals the customer's country exactly (case-sensitive) |
| `EligibilityProperties.RegistrationDateCondition` | src/main/java/org/example/service/CampaignService.java:43-47 | unparseable REGISTRATION_DATE text is `BadDate`; otherwise the customer passes iff the registration day is on or after the threshold day, by day count |
| `EligibilityProperties.MinDepositCondition` | src/main/java/org/example/service/CampaignService.java:48-52 | unparseable MIN_DEPOSIT_AMOUNT text is `BadDecimal`; otherwise the customer passes iff the deposit's numeric value is at least the threshold's |
| `EligibilityProperties.FirstDepositCondition` | src/main/java/org/example/service/CampaignService.java:53-57 | an IS_FIRST_DEPOSIT condition never errs and passes iff the flag equals `parseBoolean` of the value |
| `EligibilityProperties.UnknownKindCondition` | src/main/java/org/example/service/CampaignService.java:37 | a condition whose name is none of the four kinds raises `UnknownKind` with that name |
| `EligibilityProperties.ConjunctionOfConditions` | src/main/java/org/example/service/CampaignService.java:36-60 | the conditions give `Ok(true)` iff every single condition gives `Ok(true)` |
| `EligibilityProperties.FirstNonPassingDecides` | src/main/java/org/example/service/CampaignService.java:36-58 | when conditions before index k pass and condition k does not, the outcome is condition k's `false` or error, whatever follows |
| `EligibilityProperties.AppendConditions` | src/main/java/org/example/service/CampaignService.java:36-60 | checking `first + rest` checks `rest` only when all of `first` pass; otherwise the verdict of `first` stands |
| `EligibilityProperties.AppendCampaign` | src/main/java/org/example/service/CampaignService.java:23-27 | one more campaign without an error appends its offers if eligible and nothing otherwise |
| `EligibilityProperties.ResultIsConcatenation` | src/main/java/org/example/service/CampaignService.java:22-28 | when no campaign raises, the result is the in-order concatenation of the offer lists of the eligible campaigns |
| `EligibilityProperties.FirstErrorAborts` | src/main/java/org/example/service/CampaignService.java:23-24 | when campaign k is the first to raise, the whole request fails with its error |
| `EligibilityProperties.ReturnedOffers` | src/main/java/org/example/service/CampaignService.java:23-27 | an offer is in the concatenation iff some eligible candidate carries it |
| `EligibilityProperties.NoCandidates` | src/main/java/org/example/service/CampaignService.java:22-28 | no candidates give an empty result, not an error |
| `ConditionTypes.ValueOf` | src/main/java/org/example/service/CampaignService.java:37 | `ConditionType.valueOf`: a name it accepts is the name of the kind it returns, and it rejects a name no kind has |
| `IsoDate.ParseIsoDate` | src/main/java/org/example/service/CampaignService.java:44 | `LocalDate.parse`: every date it yields exists in the calendar (the result type `ValidDate`) and has a year from 0 to 9999, read from ten characters with '-' at positions 4 and 7; the year range is bounded under "## Left out" |
| `IsoDate.IsBefore` | src/main/java/org/example/service/CampaignService.java:44 | `LocalDate.isBefore`: strict (a date is never before itself) and never goes back in year; its full order is stated by `IsBeforeIsDayOrder` |
| `Decimal.CompareTo` | src/main/java/org/example/service/CampaignService.java:49 | `BigDecimal.compareTo`: returns -1, 0 or 1, and 0 iff the unscaled values agree once brought to the larger scale; what the sign means is stated by `CompareToIsValueOrder` |
| `Decimal.ParseDecimal` | src/main/java/org/example/service/CampaignService.java:49 | `new BigDecimal(String)`: a text it accepts is not empty, and its leading '-' or its absence fixes the sign of the unscaled value; the accepted digits are bounded under "## Left out" |
| `BooleanText.ParseBoolean` | src/main/java/org/example/service/CampaignService.java:54 | `Boolean.parseBoolean`: never fails, reads "true" as true and only four-letter text as true; the exact spelling is stated by `ParseBooleanSpelling` |
| `ConditionTypes.ValueOfName` | src/main/java/org/example/service/CampaignService.java:37 | `valueOf` accepts exactly the four constant names, each naming its own kind |
| `IsoDate.ParseFormat` | src/main/java/org/example/service/CampaignService.java:44 | parsing the printed form of a valid date with a four-digit year gives the date back |
| `IsoDate.FormatParse` | src/main/java/org/example/service/CampaignService.java:44 | a date that parses is valid and prints as exactly the parsed text |
| `IsoDate.IsBeforeIsDayOrder` | src/main/java/org/example/service/CampaignService.java:44 | on valid dates, `isBefore` holds iff the first date's day count is smaller |
| `IsoDate.IsBeforeTotalOrder` | src/main/java/org/example/service/CampaignService.java:44 | `isBefore` is irreflexive, transitive, asymmetric and total on distinct dates |
| `Decimal.CompareToIsValueOrder` | src/main/java/org/example/service/CampaignService.java:49 | `compareTo` is negative, zero or positive iff the first number is less than, equal to or greater than the second |
| `Decimal.TrailingZerosIgnored` | src/main/java/org/example/service/CampaignService.java:49 | adding k zero digits and k to the scale leaves `compareTo` at 0 |
| `Decimal.ParseFormat` | src/main/java/org/example/service/CampaignService.java:49 | the string constructor reads the canonical text of any decimal back exactly, scale included |
| `BooleanText.ParseBooleanSpelling` | src/main/java/org/example/service/CampaignService.java:54 | `parseBoolean` is true iff the text is t, r, u, e in order, each in either case |
| `BooleanText.ParseBooleanToString` | src/test/java/org/example/service/CampaignServiceTest.java:177-182 | reading `String.valueOf(b)` gives b |
| `Scenarios.NoActiveCampaigns` | src/test/java/org/example/service/CampaignServiceTest.java:26-40 | no candidates: empty result |
| `Scenarios.MatchingCountryGetsTheOffer` | src/test/java/org/example/service/CampaignServiceTest.java:42-62 | COUNTRY "Poland", customer in Poland: the one offer |
| `Scenarios.OtherCountryGetsNothing` | src/test/java/org/example/service/CampaignServiceTest.java:64-84 | COUNTRY "Poland", customer in US: empty result |
| `Scenarios.DepositBelowMinimumGetsNothing` | src/test/java/org/example/service/CampaignServiceTest.java:86-106 | minimum "10", deposit 1: empty result |
| `Scenarios.RegisteredBeforeThresholdGetsNothing` | src/test/java/org/example/service/CampaignServiceTest.java:108-128 | threshold 2024-03-13, registered 2024-03-12: empty result |
| `Scenarios.FirstDepositGetsTheOffer` | src/test/java/org/example/service/CampaignServiceTest.java:130-150 | IS_FIRST_DEPOSIT "true", first deposit: the one offer |
| `Scenarios.TenReads` | src/test/java/org/example/service/CampaignServiceTest.java:184-189 | "10", the text of `BigDecimal.TEN`, reads as unscaled 10 at scale 0 |
| `Scenarios.TenWithTwoDecimalsReads` | src/main/java/org/example/service/CampaignService.java:49 | "10.00" reads as unscaled 1000 at scale 2 |
| `Scenarios.ScaleIsIgnored` | src/main/java/org/example/service/CampaignService.java:49 | `compareTo` finds 10 at scale 0 and 1000 at scale 2 equal |
| `Scenarios.UnknownKindOnlyWhenReached` | src/main/java/org/example/service/CampaignService.java:36-41 | an unknown kind after a failing COUNTRY condition is never reached; placed first, it aborts with `UnknownKind` |

## Left out

- The repository query that supplies the candidates (`CampaignService.java:21`, `CampaignRepository.java:13`). It is a JPQL query run by the persistence layer, so the model takes the candidate campaigns as an input. `customerUuid` is used only by that query and is not modelled.
- The HTTP controller and the Spring wiring. They are request routing and framework glue with no decision logic.
- Database ids, and the back-references from offers and conditions to their campaign. The engine never reads them.
- Java object identity. The result holds offer values, not references to the same objects.
- `null` names, values and profile fields. Their `NullPointerException`s are not modelled, and all text is assumed present.
- Exception types and messages. They collapse into the three `EvalError` cases.
- `IsoDate.ParseIsoDate`: only the plain four-digit year form is read. `LocalDate.parse` also accepts signed and expanded years (`+10000-01-01`, `-0001-01-01`); the model reads those as malformed.
- `Decimal.ParseDecimal`: only ASCII digits are read. `new BigDecimal(String)` also accepts other Unicode decimal digits, and it throws when the exponent or the scale overflows a 32-bit `int`. The model reads the first as malformed and has no overflow.
- `Decimal.FormatDecimal`: this is a canonical text used as the inverse of parsing. It equals `BigDecimal.toString` only for scales that are not negative and not in scientific notation, which covers the "10" of the tests.
- `BooleanText.ParseBoolean`: case is folded for ASCII letters only. That is exact for the letters of "true".
- Calling the service twice on the same inputs gives the same result. In the model this holds by construction, since both methods are proved equal to functions of their inputs; no separate member states it.
