/**
 * The `[Currency]` validation attribute
 * (Simplebank.Domain/Attributes/CurrencyAttribute.cs): a whitelist of
 * five ISO 4217 codes, compared exactly.
 */
module CurrencyAttribute {

  /** The value handed to the validator: a string, or anything else (including null). */
  datatype Value = Str(s: string) | NotAString

  datatype ValidationResult = Valid | Invalid(message: string)

  const AllowedCurrencies: seq<string> := ["USD", "EUR", "GBP", "JPY", "CNY"]

  const NotAStringMessage: string := "Currency must be a string"
  const NotAllowedMessage: string := "Currency is not allowed"

  function IsValid(v: Value): (r: ValidationResult)
    ensures r == Valid <==> v.Str? && v.s in AllowedCurrencies
    ensures v.NotAString? ==> r == Invalid(NotAStringMessage)
    ensures v.Str? && v.s !in AllowedCurrencies ==> r == Invalid(NotAllowedMessage)
  {
    match v
    case NotAString => Invalid(NotAStringMessage)
    case Str(currency) => if currency !in AllowedCurrencies then Invalid(NotAllowedMessage) else Valid
  }

  /** Exactly five codes pass. */
  lemma ExactlyFiveCurrencies()
    ensures (set c | c in AllowedCurrencies) == {"USD", "EUR", "GBP", "JPY", "CNY"}
    ensures |set c | c in AllowedCurrencies| == 5
  {
    assert "USD" != "EUR" && "USD" != "GBP" && "USD" != "JPY" && "USD" != "CNY";
    assert "EUR" != "GBP" && "EUR" != "JPY" && "EUR" != "CNY";
    assert "GBP" != "JPY" && "GBP" != "CNY" && "JPY" != "CNY";
  }

  /** The comparison is case-sensitive: a lower-case code is refused. */
  lemma LowerCaseIsRefused()
    ensures IsValid(Str("usd")) == Invalid(NotAllowedMessage)
  {
    assert "usd" != "USD" by { assert "usd"[0] != "USD"[0]; }
    assert "usd"[0] == 'u';
  }
}
