/**
 * The persisted records the engine reads. Database ids and the
 * back-references from offers and conditions to their campaign are left out:
 * the eligibility logic never reads them.
 */
module Model {
  import IsoDate
  import Decimal

  /** A deliverable reward of a campaign. */
  datatype Offer = Offer(offerUuid: string, expirationDate: IsoDate.ValidDate)

  /** One eligibility rule: the name of its kind and its value, both stored as text. */
  datatype Condition = Condition(name: string, value: string)

  /**
   * A campaign as the repository returns it. Only `offers` and `conditions`
   * are read by the engine; the other fields are carried along.
   */
  datatype Campaign = Campaign(
    uuid: string,
    name: string,
    startDate: IsoDate.ValidDate,
    endDate: IsoDate.ValidDate,
    amount: Decimal.BigDecimal,
    offers: seq<Offer>,
    conditions: seq<Condition>)

}
