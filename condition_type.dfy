/**
 * The kinds of eligibility condition and `ConditionType.valueOf`, which maps
 * a stored condition name to its kind and throws for any other name.
 */
module ConditionTypes {
  import opened Options

  datatype ConditionType = Country | RegistrationDate | MinDepositAmount | IsFirstDeposit

  /** The constant's name as stored in a condition row. */
  function Name(k: ConditionType): string {
    match k
    case Country => "COUNTRY"
    case RegistrationDate => "REGISTRATION_DATE"
    case MinDepositAmount => "MIN_DEPOSIT_AMOUNT"
    case IsFirstDeposit => "IS_FIRST_DEPOSIT"
  }

  /** `ConditionType.valueOf`: exact, case-sensitive; `None` where it throws. */
  function ValueOf(name: string): (k: Option<ConditionType>)
    ensures k.Some? ==> Name(k.value) == name
    ensures k.None? ==> forall t :: Name(t) != name
  {
    if name == "COUNTRY" then Some(Country)
    else if name == "REGISTRATION_DATE" then Some(RegistrationDate)
    else if name == "MIN_DEPOSIT_AMOUNT" then Some(MinDepositAmount)
    else if name == "IS_FIRST_DEPOSIT" then Some(IsFirstDeposit)
    else None
  }

  /** `valueOf` accepts exactly the four names, each naming its own kind. */
  lemma ValueOfName(name: string, k: ConditionType)
    ensures ValueOf(name) == Some(k) <==> name == Name(k)
  {
  }

}
