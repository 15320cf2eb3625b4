/**
  `validate_input(name, phone_number=None)` of phonebook-app-secure.py: a total
  function from a name and an optional phone number to a verdict and a message.
  The checks run in a fixed order and the first one that fails decides the
  message: blank name, all-digit name, then (only when a number is supplied)
  blank number, non-digit number, short number.
*/
module Validation {
  import opened Text
  import opened Optional

  /** The shortest phone number, in characters, that is accepted. */
  const MinNumberLength: nat := 10

  const EmptyName := "Name cannot be empty"
  const NumericName := "Name should be text, not numbers"
  const EmptyNumber := "Phone number cannot be empty"
  const NonDigitNumber := "Phone number should contain only digits"
  const ShortNumber := "Phone number should be at least 10 digits"
  const ValidMessage := "Valid input"

  /** A name passes both name checks: something is left after stripping, and
      what is left is not made of digits only. */
  predicate AcceptableName(name: string) {
    Strip(name) != [] && !IsDigits(Strip(name))
  }

  /** A phone number passes all three number checks. `IsDigits` already
      rules out the blank number, since Python's `isdigit` is False on "". */
  predicate AcceptableNumber(number: string) {
    IsDigits(Strip(number)) && |Strip(number)| >= MinNumberLength
  }

  /** The verdict and message of `validate_input`. The name is a string:
      every caller in the application passes one. */
  function ValidateInput(name: string, phone: Option<string>): (r: (bool, string))
    // name checks come first and do not look at the phone number
    ensures Strip(name) == [] ==> r == (false, EmptyName)
    ensures Strip(name) != [] && IsDigits(Strip(name)) ==> r == (false, NumericName)
    // phone checks, in order, only when a number is supplied
    ensures AcceptableName(name) && phone.Some? && Strip(phone.value) == [] ==>
              r == (false, EmptyNumber)
    ensures (AcceptableName(name) && phone.Some? && Strip(phone.value) != []
             && !IsDigits(Strip(phone.value))) ==> r == (false, NonDigitNumber)
    ensures (AcceptableName(name) && phone.Some? && IsDigits(Strip(phone.value))
             && |Strip(phone.value)| < MinNumberLength) ==> r == (false, ShortNumber)
    // the input is valid exactly when every check passes
    ensures r.0 <==> AcceptableName(name) && (phone.Some? ==> AcceptableNumber(phone.value))
    ensures r.0 <==> r.1 == ValidMessage
  {
    var n := Strip(name);
    if n == [] then (false, EmptyName)
    else if IsDigits(n) then (false, NumericName)
    else if phone.Some? then
      var p := Strip(phone.value);
      if p == [] then (false, EmptyNumber)
      else if !IsDigits(p) then (false, NonDigitNumber)
      else if |p| < MinNumberLength then (false, ShortNumber)
      else (true, ValidMessage)
    else (true, ValidMessage)
  }

  /** The number is only looked at once the name has passed: a bad name gives
      the same answer whatever number comes with it, or none. */
  lemma NameChecksComeFirst(name: string, phone: Option<string>, other: Option<string>)
    requires !AcceptableName(name)
    ensures ValidateInput(name, phone) == ValidateInput(name, other)
    ensures !ValidateInput(name, phone).0
  {
  }

  /** An accepted number, once stripped, is all digits and at least ten long. */
  lemma ValidMeansLongDigitString(name: string, number: string)
    requires ValidateInput(name, Some(number)).0
    ensures IsDigits(Strip(number)) && |Strip(number)| >= 10
    ensures forall i :: 0 <= i < |Strip(number)| ==> '0' <= Strip(number)[i] <= '9'
  {
  }

  /** Adding a valid number to a name never changes a rejection into an
      acceptance or the other way round; it only adds checks. */
  lemma SupplyingNumberOnlyAddsChecks(name: string, number: string)
    ensures ValidateInput(name, Some(number)).0 ==> ValidateInput(name, None).0
    ensures !ValidateInput(name, None).0 ==>
              ValidateInput(name, Some(number)) == ValidateInput(name, None)
  {
  }
}
