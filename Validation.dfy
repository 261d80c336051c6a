/**
  What `validateInputs` decides, as functions of the three field texts:
  the name must be non-empty after trim, the weight must parse to a value
  in (0, 500] and the height to a value in (0, 250]. The three checks run
  independently and each owns one error message. The messages advertise
  "1–500 kg" and "50–250 cm", but the conditions in the code are the half-open
  ranges above, and the model follows the code.
*/
module Validation {
  import opened Wrappers
  import opened JsString
  import opened NumberText

  const NameRequired: string := "Enter patient name."
  const WeightInvalid: string := "Enter valid weight (1\U{2013}500 kg)."
  const HeightInvalid: string := "Enter valid height (50\U{2013}250 cm)."

  const MaxWeightKg: real := 500.0
  const MaxHeightCm: real := 250.0

  /** The record `validateInputs` returns on success. */
  datatype Patient = Patient(name: string, weightKg: real, heightCm: real)

  /** The three error texts, "" for a field that passed. */
  datatype FieldErrors = FieldErrors(name: string, weight: string, height: string)

  const NoErrors: FieldErrors := FieldErrors("", "", "")

  /** `parseFloat` of a measurement field after the sanitiser has rewritten
      it: no number exactly when no digit was typed in the field, and never
      a negative one. */
  function ParseField(text: string): (r: Option<real>)
    ensures r.None? <==> Digits(text) == []
    ensures r.Some? ==> r.value >= 0.0
  {
    SanitizeIsNumeric(text);
    SanitizeKeepsDigits(text);
    ParseNoneIff(Sanitize(text));
    ParseDecimal(Sanitize(text))
  }

  /** A parsed measurement passes when it exists and lies in (0, max]:
      the negation of the code's `!v || isNaN(v) || v <= 0 || v > max`. */
  predicate InRange(v: Option<real>, max: real) {
    v.Some? && 0.0 < v.value <= max
  }

  function NameError(nameText: string): string {
    if Trim(nameText) == [] then NameRequired else ""
  }

  function WeightError(weightText: string): string {
    if InRange(ParseField(weightText), MaxWeightKg) then "" else WeightInvalid
  }

  function HeightError(heightText: string): string {
    if InRange(ParseField(heightText), MaxHeightCm) then "" else HeightInvalid
  }

  /** The error texts after a validation pass. The checks are independent:
      each message is set exactly when its own field fails, whatever the
      other two fields hold, and cleared otherwise. */
  function ErrorsOf(nameText: string, weightText: string, heightText: string): (r: FieldErrors)
    ensures r.name != "" <==> Trim(nameText) == []
    ensures r.weight != "" <==> !InRange(ParseField(weightText), MaxWeightKg)
    ensures r.height != "" <==> !InRange(ParseField(heightText), MaxHeightCm)
  {
    FieldErrors(NameError(nameText), WeightError(weightText), HeightError(heightText))
  }

  /** The value `validateInputs` returns: a record with the trimmed name and
      the two parsed measurements when every check passes, otherwise none. */
  function Check(nameText: string, weightText: string, heightText: string): (r: Option<Patient>)
    ensures r.Some? <==>
      Trim(nameText) != [] && InRange(ParseField(weightText), MaxWeightKg)
      && InRange(ParseField(heightText), MaxHeightCm)
    ensures r.Some? ==>
      && r.value.name == Trim(nameText) && r.value.name != []
      && Some(r.value.weightKg) == ParseField(weightText)
      && Some(r.value.heightCm) == ParseField(heightText)
      && 0.0 < r.value.weightKg <= MaxWeightKg
      && 0.0 < r.value.heightCm <= MaxHeightCm
  {
    var name := Trim(nameText);
    var weight := ParseField(weightText);
    var height := ParseField(heightText);
    if name != [] && InRange(weight, MaxWeightKg) && InRange(height, MaxHeightCm) then
      Some(Patient(name, weight.value, height.value))
    else
      None
  }

  /** The steps of `validateInputs` on the three field texts: rewrite the
      two measurements, clear the messages, run the three checks, each
      setting its own message and clearing the flag on failure, and return
      the record only when the flag survived. Returns the rewritten texts,
      the record and the messages. */
  method ValidateFields(nameText: string, weightText: string, heightText: string)
    returns (weightOut: string, heightOut: string, r: Option<Patient>, errors: FieldErrors)
    ensures weightOut == Sanitize(weightText) && heightOut == Sanitize(heightText)
    ensures r == Check(nameText, weightText, heightText)
    ensures errors == ErrorsOf(nameText, weightText, heightText)
  {
    SanitizeIsNumeric(weightText);
    SanitizeIsNumeric(heightText);
    weightOut := Sanitize(weightText);
    heightOut := Sanitize(heightText);

    var name := Trim(nameText);
    var weight := ParseDecimal(weightOut);
    var height := ParseDecimal(heightOut);

    errors := NoErrors;
    var ok := true;
    if name == [] {
      errors := errors.(name := NameRequired);
      ok := false;
    }
    if weight.None? || weight.value <= 0.0 || weight.value > MaxWeightKg {
      errors := errors.(weight := WeightInvalid);
      ok := false;
    }
    if height.None? || height.value <= 0.0 || height.value > MaxHeightCm {
      errors := errors.(height := HeightInvalid);
      ok := false;
    }

    if ok {
      r := Some(Patient(name, weight.value, height.value));
    } else {
      r := None;
    }
  }

  /** A record comes back exactly when no error message is set. */
  lemma CheckIffNoErrors(nameText: string, weightText: string, heightText: string)
    ensures Check(nameText, weightText, heightText).Some?
        <==> ErrorsOf(nameText, weightText, heightText) == NoErrors
  {
  }

  /** A name of whitespace only is rejected like an empty one. */
  lemma BlankNameRejected(nameText: string)
    requires forall k :: 0 <= k < |nameText| ==> IsWhitespace(nameText[k])
    ensures NameError(nameText) == NameRequired
  {
    TrimEmptyIff(nameText);
  }

  /** Parsing a field is unaffected by sanitising it first, so validating
      the rewritten fields again decides the same. */
  lemma ParseFieldSanitized(text: string)
    ensures ParseField(Sanitize(text)) == ParseField(text)
  {
    SanitizeIdempotent(text);
  }

  lemma CheckSanitized(nameText: string, weightText: string, heightText: string)
    ensures Sanitize(Sanitize(weightText)) == Sanitize(weightText)
    ensures Sanitize(Sanitize(heightText)) == Sanitize(heightText)
    ensures Check(nameText, Sanitize(weightText), Sanitize(heightText))
         == Check(nameText, weightText, heightText)
    ensures ErrorsOf(nameText, Sanitize(weightText), Sanitize(heightText))
         == ErrorsOf(nameText, weightText, heightText)
  {
    ParseFieldSanitized(weightText);
    ParseFieldSanitized(heightText);
    SanitizeIdempotent(weightText);
    SanitizeIdempotent(heightText);
  }

  /** A whole number typed as plain digits parses to itself. */
  lemma ParseFieldNat(n: nat)
    ensures ParseField(NatText(n)) == Some(n as real)
  {
    ParseNatText(n);
    SanitizeFixesNumeric(NatText(n));
  }

  /** For whole numbers the weight check accepts exactly 1 to 500, and the
      height check exactly 1 to 250: so 500 and 250 pass and 0 fails. */
  lemma WholeWeightAcceptedIff(n: nat)
    ensures WeightError(NatText(n)) == "" <==> 1 <= n <= 500
  {
    ParseFieldNat(n);
  }

  lemma WholeHeightAcceptedIff(n: nat)
    ensures HeightError(NatText(n)) == "" <==> 1 <= n <= 250
  {
    ParseFieldNat(n);
  }

  /** A field without a digit, such as "" or ".", fails its check. */
  lemma NoDigitRejected(weightText: string, heightText: string)
    requires Digits(weightText) == [] && Digits(heightText) == []
    ensures WeightError(weightText) == WeightInvalid
    ensures HeightError(heightText) == HeightInvalid
  {
  }

  /** Weights below 1 kg pass although the message advertises 1–500: a
      number of tenths n with 1 <= n <= 9, typed as "0.n", is accepted. */
  lemma TenthsBelowOneAccepted(n: nat)
    requires 1 <= n <= 9
    ensures WeightError(TenthsText(n)) == ""
    ensures HeightError(TenthsText(n)) == ""
  {
    ParseTenthsText(n);
    SanitizeFixesNumeric(TenthsText(n));
  }
}
