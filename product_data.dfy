/**
 * The product payload the service sends to the merchant API, and the two pure
 * steps the service applies to it before any remote call: filling in default
 * fields (`ensureRequiredFields`) and fail-fast validation (`validateProductData`).
 */
module ProductData {

  import opened Wrappers
  import opened PhpStrings

  /** A PHP value as it can appear in the payload array (floats are carried as numeric strings). */
  datatype Value = Null | Bool(b: bool) | Int(i: int) | Str(s: string) | Arr(entries: map<string, Value>)

  /** A PHP array with string keys. */
  type Payload = map<string, Value>

  /** `isset($data[$key])`: the key is present and its value is not null. */
  predicate IsSet(data: Payload, key: string) {
    key in data && !data[key].Null?
  }

  // ---------------------------------------------------------------------
  // ensureRequiredFields
  // ---------------------------------------------------------------------

  const DefaultPrice: Value := Arr(map["value" := Str("0.00"), "currency" := Str("USD")])

  const Defaults: Payload := map["condition" := Str("new"), "availability" := Str("in stock"), "price" := DefaultPrice]

  /**
   * `array_merge($defaults, $data)`: every default key is added, and the
   * caller's values win. Payload keys are field names; PHP's renumbering of
   * integer keys in `array_merge` is not modelled.
   */
  function EnsureRequiredFields(data: Payload): (r: Payload)
    ensures r.Keys == data.Keys + Defaults.Keys
    ensures forall k :: k in data ==> r[k] == data[k]
    ensures forall k :: k in Defaults && k !in data ==> r[k] == Defaults[k]
  {
    Defaults + data
  }

  /** Defaulting twice is defaulting once. */
  lemma EnsureRequiredFieldsIdempotent(data: Payload)
    ensures EnsureRequiredFields(EnsureRequiredFields(data)) == EnsureRequiredFields(data)
  {
  }

  /**
   * After defaulting, `availability` and `price` are set unless the caller
   * supplied them explicitly as null, and `condition`, when the caller left it
   * out, is "new".
   */
  lemma DefaultsFillGaps(data: Payload)
    ensures ("availability" !in data || !data["availability"].Null?) ==> IsSet(EnsureRequiredFields(data), "availability")
    ensures ("price" !in data || !data["price"].Null?) ==> IsSet(EnsureRequiredFields(data), "price")
    ensures "condition" !in data ==> EnsureRequiredFields(data)["condition"] == Str("new")
  {
  }

  // ---------------------------------------------------------------------
  // PHP's numeric tests on the price value
  // ---------------------------------------------------------------------

  predicate AllDigits(s: string) {
    forall k :: 0 <= k < |s| ==> IsDigit(s[k])
  }

  /** The string without its leading sign, if any. */
  function Unsigned(s: string): string {
    if |s| > 0 && (s[0] == '+' || s[0] == '-') then s[1..] else s
  }

  /**
   * A plain decimal numeral: an optional sign, digits, and at most one decimal
   * point with digits on at least one side ("29.99", "-1", ".5", "3.").
   */
  predicate IsDecimalString(s: string) {
    var parts := Split(Unsigned(s), '.');
    (|parts| == 1 && |parts[0]| > 0 && AllDigits(parts[0]))
    || (|parts| == 2 && AllDigits(parts[0]) && AllDigits(parts[1]) && |parts[0]| + |parts[1]| > 0)
  }

  /** `is_numeric($v)` on the values a payload can hold. */
  predicate IsNumeric(v: Value) {
    v.Int? || (v.Str? && IsDecimalString(v.s))
  }

  /** `$v < 0` for a numeric value: a minus sign followed by some non-zero digit. */
  predicate IsNegative(v: Value)
    requires IsNumeric(v)
  {
    if v.Int? then v.i < 0
    else |v.s| > 0 && v.s[0] == '-' && exists k :: 1 <= k < |v.s| && '1' <= v.s[k] <= '9'
  }

  // ---------------------------------------------------------------------
  // in_array with PHP's loose comparison against strings
  // ---------------------------------------------------------------------

  /** `$v == $s` for a non-numeric string `$s` (PHP 8 rules). */
  predicate LooseEqualsString(v: Value, s: string) {
    match v
    case Null => s == ""
    case Bool(b) => b == Truthy(s)
    case Int(i) => IntToString(i) == s
    case Str(t) => t == s
    case Arr(_) => false
  }

  /** `in_array($v, $options)` without the strict flag. */
  predicate InArrayLoose(v: Value, options: seq<string>) {
    exists k :: 0 <= k < |options| && LooseEqualsString(v, options[k])
  }

  // ---------------------------------------------------------------------
  // validateProductData
  // ---------------------------------------------------------------------

  const RequiredFields: seq<string> := ["offerId", "title", "description", "link", "imageLink", "price", "availability"]

  const ValidAvailabilities: seq<string> := ["in stock", "out of stock", "preorder"]

  const ValidConditions: seq<string> := ["new", "used", "refurbished"]

  const PriceFieldsMessage: string := "Price must have 'value' and 'currency' fields"

  const PriceValueMessage: string := "Price value must be a positive number"

  const AvailabilityMessage: string := "Invalid availability value. Must be one of: in stock, out of stock, preorder"

  const ConditionMessage: string := "Invalid condition value. Must be one of: new, used, refurbished"

  function MissingFieldMessage(field: string): string {
    "Missing required field: " + field
  }

  /** The first index at or after `from` whose field is not set: the `foreach` that throws on the first gap. */
  function FirstMissing(data: Payload, fields: seq<string>, from: nat): (r: Option<nat>)
    decreases |fields| - from
    ensures r.Some? ==> from <= r.value < |fields| && !IsSet(data, fields[r.value])
    ensures r.Some? ==> forall j :: from <= j < r.value ==> IsSet(data, fields[j])
    ensures r.None? ==> forall j :: from <= j < |fields| ==> IsSet(data, fields[j])
  {
    if from >= |fields| then None
    else if !IsSet(data, fields[from]) then Some(from)
    else FirstMissing(data, fields, from + 1)
  }

  /** `price` holds both `value` and `currency`, set. */
  predicate PriceHasParts(price: Value) {
    price.Arr? && IsSet(price.entries, "value") && IsSet(price.entries, "currency")
  }

  /** The price value is numeric and not below zero (zero passes). */
  predicate PriceValueOk(price: Value)
    requires PriceHasParts(price)
  {
    IsNumeric(price.entries["value"]) && !IsNegative(price.entries["value"])
  }

  /** `condition` is absent, null, or one of the three accepted values. */
  predicate ConditionOk(data: Payload) {
    IsSet(data, "condition") ==> InArrayLoose(data["condition"], ValidConditions)
  }

  /** Every required field is set, in whatever order they are checked. */
  predicate AllRequiredSet(data: Payload)
    ensures AllRequiredSet(data) ==> "price" in data && "availability" in data
  {
    assert RequiredFields[5] == "price" && RequiredFields[6] == "availability";
    forall k :: 0 <= k < |RequiredFields| ==> IsSet(data, RequiredFields[k])
  }

  /** The declarative reading of a valid payload. */
  predicate ValidProduct(data: Payload) {
    && AllRequiredSet(data)
    && "price" in data && PriceHasParts(data["price"]) && PriceValueOk(data["price"])
    && "availability" in data && InArrayLoose(data["availability"], ValidAvailabilities)
    && ConditionOk(data)
  }

  /**
   * `validateProductData`: `Ok(true)` exactly when every required field is set,
   * the price is well formed and non-negative, the availability is accepted and
   * the condition, if set, is accepted; otherwise the exception of the FIRST
   * check that fails, with the first missing required field named.
   */
  function Validate(data: Payload): (r: Result<bool, Exception>)
    ensures r.Ok? ==> r.value
    ensures r.Err? ==> r.error.InvalidArgument?
    ensures r.Ok? <==> ValidProduct(data)
    ensures forall i :: 0 <= i < |RequiredFields| && !IsSet(data, RequiredFields[i])
                        && (forall j :: 0 <= j < i ==> IsSet(data, RequiredFields[j]))
                        ==> r == Err(InvalidArgument(MissingFieldMessage(RequiredFields[i])))
    ensures AllRequiredSet(data) && !PriceHasParts(data["price"]) ==> r == Err(InvalidArgument(PriceFieldsMessage))
    ensures AllRequiredSet(data) && PriceHasParts(data["price"]) && !PriceValueOk(data["price"])
            ==> r == Err(InvalidArgument(PriceValueMessage))
    ensures AllRequiredSet(data) && PriceHasParts(data["price"]) && PriceValueOk(data["price"])
            && !InArrayLoose(data["availability"], ValidAvailabilities)
            ==> r == Err(InvalidArgument(AvailabilityMessage))
    ensures AllRequiredSet(data) && PriceHasParts(data["price"]) && PriceValueOk(data["price"])
            && InArrayLoose(data["availability"], ValidAvailabilities) && !ConditionOk(data)
            ==> r == Err(InvalidArgument(ConditionMessage))
  {
    match FirstMissing(data, RequiredFields, 0)
    case Some(i) => Err(InvalidArgument(MissingFieldMessage(RequiredFields[i])))
    case None =>
      var price := data["price"];
      if !PriceHasParts(price) then Err(InvalidArgument(PriceFieldsMessage))
      else if !PriceValueOk(price) then Err(InvalidArgument(PriceValueMessage))
      else if !InArrayLoose(data["availability"], ValidAvailabilities) then Err(InvalidArgument(AvailabilityMessage))
      else if !ConditionOk(data) then Err(InvalidArgument(ConditionMessage))
      else Ok(true)
  }

  // ---------------------------------------------------------------------
  // Consequences of the validation rules
  // ---------------------------------------------------------------------

  /** A numeral made of digits, a point and digits is a plain decimal, with or without a minus sign. */
  lemma DecimalNumeral(whole: string, frac: string)
    requires AllDigits(whole) && AllDigits(frac) && |whole| + |frac| > 0
    ensures IsDecimalString(whole + "." + frac)
    ensures IsDecimalString("-" + whole + "." + frac)
  {
    assert '.' !in whole && '.' !in frac;
    SplitJoin([whole, frac], '.');
    assert Join([whole, frac], '.') == whole + "." + frac;
    assert Unsigned("-" + whole + "." + frac) == whole + "." + frac;
    if |whole| > 0 {
      assert Unsigned(whole + "." + frac) == whole + "." + frac by { assert (whole + "." + frac)[0] == whole[0]; }
    } else {
      assert Unsigned(whole + "." + frac) == whole + "." + frac by { assert whole + "." + frac == "." + frac; }
    }
  }

  /** The payload of the package's own unit test. */
  const UnitTestPayload: Payload := map[
    "offerId" := Str("123"), "title" := Str("Test Product"), "description" := Str("Test Description"),
    "link" := Str("https://example.com/product/123"), "imageLink" := Str("https://example.com/image.jpg"),
    "price" := Arr(map["value" := Str("29.99"), "currency" := Str("USD")]),
    "availability" := Str("in stock")]

  /** The unit-test payload sets every required field. */
  lemma UnitTestPayloadComplete()
    ensures AllRequiredSet(UnitTestPayload)
  {
    forall k | 0 <= k < |RequiredFields|
      ensures IsSet(UnitTestPayload, RequiredFields[k])
    {
      if k == 0 { assert RequiredFields[k] == "offerId"; }
      else if k == 1 { assert RequiredFields[k] == "title"; }
      else if k == 2 { assert RequiredFields[k] == "description"; }
      else if k == 3 { assert RequiredFields[k] == "link"; }
      else if k == 4 { assert RequiredFields[k] == "imageLink"; }
      else if k == 5 { assert RequiredFields[k] == "price"; }
      else { assert RequiredFields[k] == "availability"; }
    }
  }

  /** The payload of the package's own unit test passes validation. */
  lemma UnitTestPayloadValidates()
    ensures Validate(UnitTestPayload) == Ok(true)
  {
    UnitTestPayloadComplete();
    var price := UnitTestPayload["price"];
    assert price == Arr(map["value" := Str("29.99"), "currency" := Str("USD")]);
    DecimalNumeral("29", "99");
    assert "29" + "." + "99" == "29.99";
    assert PriceValueOk(price);
    assert UnitTestPayload["availability"] == Str("in stock");
    assert LooseEqualsString(Str("in stock"), ValidAvailabilities[0]);
    assert "condition" !in UnitTestPayload;
    assert ValidProduct(UnitTestPayload);
  }

  /** A key present with a null value is treated as missing. */
  lemma NullCountsAsMissing(data: Payload)
    requires "offerId" in data && data["offerId"] == Null
    ensures Validate(data) == Err(InvalidArgument("Missing required field: offerId"))
  {
    assert RequiredFields[0] == "offerId" && !IsSet(data, RequiredFields[0]);
    assert FirstMissing(data, RequiredFields, 0) == Some(0);
    assert MissingFieldMessage("offerId") == "Missing required field: offerId";
  }

  /** A price of zero passes, despite the "positive" wording of the error; a negative one does not. */
  lemma ZeroPriceAcceptedNegativeRejected(z: string, n: string)
    requires z == "0.00" && n == "-0.01"
    ensures IsNumeric(Str(z)) && !IsNegative(Str(z))
    ensures IsNumeric(Str(n)) && IsNegative(Str(n))
  {
    DecimalNumeral("0", "00");
    assert z == "0" + "." + "00";
    DecimalNumeral("0", "01");
    assert n == "-" + "0" + "." + "01";
    assert '1' <= n[4] <= '9';
  }

  /** PHP's loose comparison lets the boolean `true` through as an availability. */
  lemma TrueIsAcceptedAvailability()
    ensures InArrayLoose(Bool(true), ValidAvailabilities)
    ensures !InArrayLoose(Bool(false), ValidAvailabilities)
  {
    assert LooseEqualsString(Bool(true), ValidAvailabilities[0]);
  }
}
