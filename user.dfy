/**
 * The user panel's form validators and the classification of billing data
 * (flaskr/user.py). Each form is the JSON body of a request, reduced to the
 * keys the handler reads.
 */
module UserForms {
  import opened Wrappers
  import opened Text
  import opened Messages
  import opened Checks
  import Json

  /** `'@' in email and '.' in email`, the only e-mail test the code makes. */
  predicate EmailLooksValid(email: string) {
    '@' in email && '.' in email
  }

  /**
   * The billing-data form. `countryCode` is None when the key 'bill-ctr-code'
   * is absent from the body; `otherValues` are the values of any keys beyond
   * the ones named here.
   */
  datatype BillingForm = BillingForm(
    name: string,               // 'bill-nm'
    street: string,             // 'bill-st'
    city: string,               // 'bill-ct'
    postcode: string,           // 'bill-pc'
    countryCode: Option<string>,  // 'bill-ctr-code'
    country: string,            // 'bill-ctr'
    taxId: string,              // 'bill-vat'
    email: string,              // 'bill-email'
    regCheckbox: Json.Value,    // 'bill-reg-checkbox'
    otherValues: seq<Json.Value>)

  /** Each form's checks report distinct keys. */
  lemma ChecksAreDistinct()
    ensures NoDup(BillingChecks) && NoDup(AccountChecks) && NoDup(ShippingChecks) && NoDup(PasswordChecks)
  {
  }

  /** The billing checks, in the order `validate_billing_data` makes them. */
  const BillingChecks: seq<ErrorKey> := [
    UserBillingNameTooLong, UserStreetNameTooLong, UserCityNameTooLong, UserInvalidPostcode,
    UserInvalidCountry, UserInvalidTaxNumber, UserInvalidEmail, UserInvalidRegCheckbox]

  /** The country test of the billing form: a given code must hold a capital; without one, the country must be empty. */
  predicate BillingCountryFails(countryCode: Option<string>, country: string) {
    match countryCode
    case Some(code) => code != "" && !HasUpper(code)
    case None => country != ""
  }

  /**
   * `validate_billing_data`: the postcode, country code, tax id and e-mail
   * are tested only when non-empty, the lengths always, and the checkbox must
   * equal True.
   */
  function ValidateBilling(f: BillingForm): (errors: seq<ErrorKey>)
    ensures IsSubseq(errors, BillingChecks) && NoDup(errors)
    ensures UserBillingNameTooLong in errors <==> |f.name| > 255
    ensures UserStreetNameTooLong in errors <==> |f.street| > 255
    ensures UserCityNameTooLong in errors <==> |f.city| > 255
    ensures UserInvalidPostcode in errors <==>
      f.postcode != "" && (!HasDigit(f.postcode) || |f.postcode| > 20)
    ensures UserInvalidCountry in errors <==> BillingCountryFails(f.countryCode, f.country)
    ensures UserInvalidTaxNumber in errors <==> f.taxId != "" && (!HasDigit(f.taxId) || |f.taxId| > 45)
    ensures UserInvalidEmail in errors <==> f.email != "" && !EmailLooksValid(f.email)
    ensures UserInvalidRegCheckbox in errors <==> !Json.EqualsTrue(f.regCheckbox)
  {
    var failed := BillingFailures(f);
    ChecksAreDistinct();
    CollectOrder(failed, BillingChecks);
    CollectHas(failed, BillingChecks, 0, UserBillingNameTooLong);
    CollectHas(failed, BillingChecks, 1, UserStreetNameTooLong);
    CollectHas(failed, BillingChecks, 2, UserCityNameTooLong);
    CollectHas(failed, BillingChecks, 3, UserInvalidPostcode);
    CollectHas(failed, BillingChecks, 4, UserInvalidCountry);
    CollectHas(failed, BillingChecks, 5, UserInvalidTaxNumber);
    CollectHas(failed, BillingChecks, 6, UserInvalidEmail);
    CollectHas(failed, BillingChecks, 7, UserInvalidRegCheckbox);
    Collect(failed, BillingChecks)
  }

  /** Which of the billing checks fail, in check order. */
  function BillingFailures(f: BillingForm): seq<bool> {
    [|f.name| > 255,
     |f.street| > 255,
     |f.city| > 255,
     f.postcode != "" && (!HasDigit(f.postcode) || |f.postcode| > 20),
     BillingCountryFails(f.countryCode, f.country),
     f.taxId != "" && (!HasDigit(f.taxId) || |f.taxId| > 45),
     f.email != "" && !EmailLooksValid(f.email),
     !Json.EqualsTrue(f.regCheckbox)]
  }

  /** The account-data form. */
  datatype AccountForm = AccountForm(
    firstName: string,          // 'acc-fn'
    lastName: string,           // 'acc-ln'
    phone: string,              // 'acc-ph'
    regCheckbox: Json.Value)    // 'acc-reg-checkbox'

  const AccountChecks: seq<ErrorKey> := [
    UserInvalidFirstName, UserInvalidLastName, UserInvalidPhone, UserInvalidRegCheckbox]

  /** `validate_account_data`: first name 1..45, last name 1..255, a phone with a digit and at most 20 long. */
  function ValidateAccount(f: AccountForm): (errors: seq<ErrorKey>)
    ensures IsSubseq(errors, AccountChecks) && NoDup(errors)
    ensures UserInvalidFirstName in errors <==> !(1 <= |f.firstName| <= 45)
    ensures UserInvalidLastName in errors <==> !(1 <= |f.lastName| <= 255)
    ensures UserInvalidPhone in errors <==> !HasDigit(f.phone) || |f.phone| > 20
    ensures UserInvalidRegCheckbox in errors <==> !Json.EqualsTrue(f.regCheckbox)
  {
    var failed := AccountFailures(f);
    ChecksAreDistinct();
    CollectOrder(failed, AccountChecks);
    CollectHas(failed, AccountChecks, 0, UserInvalidFirstName);
    CollectHas(failed, AccountChecks, 1, UserInvalidLastName);
    CollectHas(failed, AccountChecks, 2, UserInvalidPhone);
    CollectHas(failed, AccountChecks, 3, UserInvalidRegCheckbox);
    Collect(failed, AccountChecks)
  }

  /** Which of the account checks fail, in check order. */
  function AccountFailures(f: AccountForm): seq<bool> {
    [f.firstName == "" || |f.firstName| > 45,
     f.lastName == "" || |f.lastName| > 255,
     !HasDigit(f.phone) || |f.phone| > 20,
     !Json.EqualsTrue(f.regCheckbox)]
  }

  /** The shipping-address form. `countryCode` is None when the key 'ship-ctr-code' is absent. */
  datatype ShippingForm = ShippingForm(
    firstName: string,          // 'ship-fn'
    lastName: string,           // 'ship-ln'
    companyName: string,        // 'ship-cn'
    street: string,             // 'ship-st'
    postcode: string,           // 'ship-pc'
    city: string,               // 'ship-ct'
    countryCode: Option<string>,  // 'ship-ctr-code'
    country: string,            // 'ship-ctr', stored but not tested
    phone: string)              // 'ship-ph'

  const ShippingChecks: seq<ErrorKey> := [
    UserInvalidFirstName, UserInvalidLastName, UserInvalidCompanyName, UserStreetNameTooLong,
    UserInvalidPostcode, UserCityNameTooLong, UserInvalidCountry, UserInvalidPhone]

  /** The country test of the shipping form: the code is required and must hold a capital. */
  predicate ShippingCountryFails(countryCode: Option<string>) {
    countryCode.None? || !HasUpper(countryCode.value)
  }

  /** `validate_shipping_data`: here the postcode and the country code are required. */
  function ValidateShipping(f: ShippingForm): (errors: seq<ErrorKey>)
    ensures IsSubseq(errors, ShippingChecks) && NoDup(errors)
    ensures UserInvalidFirstName in errors <==> !(1 <= |f.firstName| <= 45)
    ensures UserInvalidLastName in errors <==> !(1 <= |f.lastName| <= 255)
    ensures UserInvalidCompanyName in errors <==> |f.companyName| > 255
    ensures UserStreetNameTooLong in errors <==> !(1 <= |f.street| <= 255)
    ensures UserInvalidPostcode in errors <==> !HasDigit(f.postcode) || |f.postcode| > 20
    ensures UserCityNameTooLong in errors <==> !(1 <= |f.city| <= 255)
    ensures UserInvalidCountry in errors <==> ShippingCountryFails(f.countryCode)
    ensures UserInvalidPhone in errors <==> !HasDigit(f.phone) || |f.phone| > 20
  {
    var failed := ShippingFailures(f);
    ChecksAreDistinct();
    CollectOrder(failed, ShippingChecks);
    CollectHas(failed, ShippingChecks, 0, UserInvalidFirstName);
    CollectHas(failed, ShippingChecks, 1, UserInvalidLastName);
    CollectHas(failed, ShippingChecks, 2, UserInvalidCompanyName);
    CollectHas(failed, ShippingChecks, 3, UserStreetNameTooLong);
    CollectHas(failed, ShippingChecks, 4, UserInvalidPostcode);
    CollectHas(failed, ShippingChecks, 5, UserCityNameTooLong);
    CollectHas(failed, ShippingChecks, 6, UserInvalidCountry);
    CollectHas(failed, ShippingChecks, 7, UserInvalidPhone);
    Collect(failed, ShippingChecks)
  }

  /** Which of the shipping checks fail, in check order. */
  function ShippingFailures(f: ShippingForm): seq<bool> {
    [f.firstName == "" || |f.firstName| > 45,
     f.lastName == "" || |f.lastName| > 255,
     |f.companyName| > 255,
     f.street == "" || |f.street| > 255,
     !HasDigit(f.postcode) || |f.postcode| > 20,
     f.city == "" || |f.city| > 255,
     ShippingCountryFails(f.countryCode),
     !HasDigit(f.phone) || |f.phone| > 20]
  }

  /** The change-password form (the old password is checked against its hash before this). */
  datatype PasswordForm = PasswordForm(
    newPass: string,            // 'new-pass'
    newPassConfirm: string,     // 'new-pass-confirm'
    regCheckbox: Json.Value)    // 'pass-reg-checkbox'

  const PasswordChecks: seq<ErrorKey> := [
    AuthInvalidNewPassLowerCase, AuthInvalidNewPassUpperCase, AuthInvalidNewPassDigit,
    AuthInvalidNewPassLength, AuthInvalidPassConfirm, AuthInvalidRegCheckbox]

  /** `validate_password`: six independent checks; `minLength` is the configured minimum password length. */
  function ValidatePassword(f: PasswordForm, minLength: int): (errors: seq<ErrorKey>)
    ensures IsSubseq(errors, PasswordChecks) && NoDup(errors)
    ensures AuthInvalidNewPassLowerCase in errors <==> !HasLower(f.newPass)
    ensures AuthInvalidNewPassUpperCase in errors <==> !HasUpper(f.newPass)
    ensures AuthInvalidNewPassDigit in errors <==> !HasDigit(f.newPass)
    ensures AuthInvalidNewPassLength in errors <==> |f.newPass| < minLength
    ensures AuthInvalidPassConfirm in errors <==> f.newPass != f.newPassConfirm
    ensures AuthInvalidRegCheckbox in errors <==> !Json.EqualsTrue(f.regCheckbox)
  {
    var failed := PasswordFailures(f, minLength);
    ChecksAreDistinct();
    CollectOrder(failed, PasswordChecks);
    CollectHas(failed, PasswordChecks, 0, AuthInvalidNewPassLowerCase);
    CollectHas(failed, PasswordChecks, 1, AuthInvalidNewPassUpperCase);
    CollectHas(failed, PasswordChecks, 2, AuthInvalidNewPassDigit);
    CollectHas(failed, PasswordChecks, 3, AuthInvalidNewPassLength);
    CollectHas(failed, PasswordChecks, 4, AuthInvalidPassConfirm);
    CollectHas(failed, PasswordChecks, 5, AuthInvalidRegCheckbox);
    Collect(failed, PasswordChecks)
  }

  /** Which of the password checks fail, in check order. */
  function PasswordFailures(f: PasswordForm, minLength: int): seq<bool> {
    [!HasLower(f.newPass),
     !HasUpper(f.newPass),
     !HasDigit(f.newPass),
     |f.newPass| < minLength,
     f.newPass != f.newPassConfirm,
     !Json.EqualsTrue(f.regCheckbox)]
  }

  /** The `type` column of `billingData`: 'personal', 'company' or 'none'. */
  datatype BillingType = Personal | Company | NoBilling

  /**
   * The values the `all`/`any` tests of the billing-data PUT handler look
   * at: every value of the body except the checkbox and the tax id, with a
   * missing country code added as ''.
   */
  function ClassifiedValues(f: BillingForm): seq<Json.Value> {
    var code := match f.countryCode case Some(c) => c case None => "";
    [Json.Str(f.name), Json.Str(f.street), Json.Str(f.city), Json.Str(f.postcode),
     Json.Str(code), Json.Str(f.country), Json.Str(f.email)] + f.otherValues
  }

  /**
   * The billing type the PUT handler stores: `none` when every classified
   * value is empty (whatever the tax id), the missing-data error when only
   * some are, and otherwise `company` exactly when the tax id is non-empty.
   */
  function BillingTypeOf(f: BillingForm): (r: Result<BillingType, ErrorKey>)
    ensures var vs := ClassifiedValues(f);
      && (r == Ok(NoBilling) <==> forall v :: v in vs ==> Json.EqualsEmptyString(v))
      && (r.Err? <==> (exists v :: v in vs && Json.EqualsEmptyString(v)) &&
                      (exists v :: v in vs && !Json.EqualsEmptyString(v)))
      && (r.Err? ==> r.error == UserMissingBillingData)
      && (r == Ok(Company) <==> f.taxId != "" && forall v :: v in vs ==> !Json.EqualsEmptyString(v))
      && (r == Ok(Personal) <==> f.taxId == "" && forall v :: v in vs ==> !Json.EqualsEmptyString(v))
  {
    var vs := ClassifiedValues(f);
    assert vs[0] in vs;
    var t := if f.taxId == "" then Personal else Company;
    if forall v :: v in vs ==> Json.EqualsEmptyString(v) then Ok(NoBilling)
    else if exists v :: v in vs && Json.EqualsEmptyString(v) then Err(UserMissingBillingData)
    else Ok(t)
  }

  /** The row the PUT handler writes into `billingData`. */
  datatype BillingRow = BillingRow(
    billingType: BillingType, name: string, street: string, city: string, postcode: string,
    countryCode: string, country: string, taxId: string, email: string)

  datatype BillingUpdate =
    | Invalid(errors: seq<ErrorKey>)   // 400 with the validator's list
    | MissingBillingData               // 400 with the single missing-data message
    | Stored(row: BillingRow)          // the UPDATE is issued

  /** The PUT branch of `billing_data`: validate, classify, then store. */
  function PutBillingData(f: BillingForm): (r: BillingUpdate)
    ensures r.Invalid? <==> ValidateBilling(f) != []
    ensures r.Invalid? ==> r.errors == ValidateBilling(f)
    ensures r.MissingBillingData? <==> ValidateBilling(f) == [] && BillingTypeOf(f).Err?
    ensures r.Stored? ==> Json.EqualsTrue(f.regCheckbox) && Ok(r.row.billingType) == BillingTypeOf(f)
    ensures r.Stored? ==> r.row == BillingRow(
      r.row.billingType, f.name, f.street, f.city, f.postcode,
      (match f.countryCode case Some(c) => c case None => ""), f.country, f.taxId, f.email)
  {
    var errors := ValidateBilling(f);
    if errors != [] then Invalid(errors)
    else
      match BillingTypeOf(f)
      case Err(_) => MissingBillingData
      case Ok(t) =>
        var code := match f.countryCode case Some(c) => c case None => "";
        Stored(BillingRow(t, f.name, f.street, f.city, f.postcode, code, f.country, f.taxId, f.email))
  }

  /**
   * A form that leaves every optional billing field empty passes the
   * postcode, country, tax-id and e-mail checks.
   */
  lemma BillingAcceptsEmptyOptionalFields(f: BillingForm)
    requires f.postcode == "" && f.taxId == "" && f.email == ""
    requires f.countryCode == Some("") || (f.countryCode.None? && f.country == "")
    ensures var errors := ValidateBilling(f);
      UserInvalidPostcode !in errors && UserInvalidCountry !in errors &&
      UserInvalidTaxNumber !in errors && UserInvalidEmail !in errors
  {
  }

  /** Without 'bill-ctr-code', every other non-empty field makes the update fail with missing data. */
  lemma MissingCountryCodeMeansMissingData(f: BillingForm)
    requires f.countryCode.None? && f.country == "" && f.name != ""
    requires ValidateBilling(f) == []
    ensures PutBillingData(f) == MissingBillingData
  {
    assert Json.Str("") in ClassifiedValues(f) by { assert ClassifiedValues(f)[4] == Json.Str(""); }
    assert Json.Str(f.name) in ClassifiedValues(f) by { assert ClassifiedValues(f)[0] == Json.Str(f.name); }
  }

  /**
   * The type `none` is chosen whatever the tax id: a valid form whose
   * classified values are all empty is stored as `none`, keeping its tax id.
   */
  lemma NoneTypeKeepsTaxId(f: BillingForm)
    requires ValidateBilling(f) == [] && f.taxId != ""
    requires forall v :: v in ClassifiedValues(f) ==> Json.EqualsEmptyString(v)
    ensures PutBillingData(f).Stored?
    ensures PutBillingData(f).row.billingType == NoBilling && PutBillingData(f).row.taxId == f.taxId
  {
  }

  /** An empty postcode never passes the shipping form. */
  lemma EmptyPostcodeRejected(f: ShippingForm)
    requires f.postcode == ""
    ensures UserInvalidPostcode in ValidateShipping(f)
  {
  }

  /** A billing form is accepted exactly when every one of its checks passes. */
  lemma BillingAccepted(f: BillingForm)
    ensures ValidateBilling(f) == [] <==>
      |f.name| <= 255 && |f.street| <= 255 && |f.city| <= 255 &&
      (f.postcode == "" || (HasDigit(f.postcode) && |f.postcode| <= 20)) &&
      !BillingCountryFails(f.countryCode, f.country) &&
      (f.taxId == "" || (HasDigit(f.taxId) && |f.taxId| <= 45)) &&
      (f.email == "" || EmailLooksValid(f.email)) && Json.EqualsTrue(f.regCheckbox)
  {
    ChecksAreDistinct();
    CollectFacts(BillingFailures(f), BillingChecks);
  }

  /** An account form is accepted exactly when every one of its checks passes. */
  lemma AccountAccepted(f: AccountForm)
    ensures ValidateAccount(f) == [] <==>
      1 <= |f.firstName| <= 45 && 1 <= |f.lastName| <= 255 &&
      HasDigit(f.phone) && |f.phone| <= 20 && Json.EqualsTrue(f.regCheckbox)
  {
    ChecksAreDistinct();
    CollectFacts(AccountFailures(f), AccountChecks);
  }

  /** A shipping address is accepted exactly when every one of its checks passes. */
  lemma ShippingAccepted(f: ShippingForm)
    ensures ValidateShipping(f) == [] <==>
      1 <= |f.firstName| <= 45 && 1 <= |f.lastName| <= 255 && |f.companyName| <= 255 &&
      1 <= |f.street| <= 255 && HasDigit(f.postcode) && |f.postcode| <= 20 &&
      1 <= |f.city| <= 255 && !ShippingCountryFails(f.countryCode) &&
      HasDigit(f.phone) && |f.phone| <= 20
  {
    ChecksAreDistinct();
    CollectFacts(ShippingFailures(f), ShippingChecks);
  }

  /** A new password is accepted exactly when every one of its checks passes. */
  lemma PasswordAccepted(f: PasswordForm, minLength: int)
    ensures ValidatePassword(f, minLength) == [] <==>
      HasLower(f.newPass) && HasUpper(f.newPass) && HasDigit(f.newPass) &&
      |f.newPass| >= minLength && f.newPass == f.newPassConfirm && Json.EqualsTrue(f.regCheckbox)
  {
    ChecksAreDistinct();
    CollectFacts(PasswordFailures(f, minLength), PasswordChecks);
  }
}
