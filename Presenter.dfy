/**
  The form's state and its handlers: `validateInputs`, which rewrites the
  two measurement fields and sets the three error texts; `updateBMI`, run
  on every input, change and blur event, which redraws the result panel;
  and the share, copy and export actions, which validate again and build
  their payloads from what the panel shows. The page is a record of text
  fields and flags; the platform share sheet and clipboard are reduced to
  the outcome they report.
*/
module Presenter {
  import opened Wrappers
  import opened JsString
  import opened NumberText
  import opened Bmi
  import opened Validation
  import opened Export

  const Placeholder: string := "--"
  const Prompt: string := "Enter patient name, weight and height above to see BMI."

  /** What the result panel shows: the BMI text, the category label (the
      trimmed text of the category pill), the advice, whether the result
      box is shown, and the `disabled` flags of the share, copy and export
      buttons. */
  datatype Panel = Panel(
    bmiText: string, categoryText: string, adviceText: string, shown: bool,
    shareDisabled: bool, copyDisabled: bool, exportDisabled: bool)

  /** A validation result the panel can be drawn from. */
  predicate Drawable(r: Option<Patient>) {
    r.Some? ==> r.value.weightKg > 0.0 && r.value.heightCm > 0.0
  }

  /** The panel `updateBMI` draws for a validation result: the placeholder
      and prompt when there is none, otherwise the BMI rounded to one
      decimal, classified after rounding. */
  function PanelFor(r: Option<Patient>): (pnl: Panel)
    requires Drawable(r)
    ensures pnl.shown <==> r.Some?
    ensures pnl.shareDisabled <==> r.None?
    ensures pnl.copyDisabled <==> r.None?
    ensures pnl.exportDisabled <==> r.None?
  {
    match r
    case None => Panel(Placeholder, "", Prompt, false, true, true, true)
    case Some(p) =>
      var rounded := RoundedBmi(p.weightKg, p.heightCm);
      var cat := Classify(rounded);
      Panel(ToFixed1(rounded), cat.Label(), cat.Advice(), true, false, false, false)
  }

  /** The placeholder is shown exactly when validation failed: a drawn BMI
      is numeric text and never "--". */
  lemma PlaceholderIffInvalid(r: Option<Patient>)
    requires Drawable(r)
    ensures PanelFor(r).bmiText == Placeholder <==> r.None?
  {
    if r.Some? {
      var p := r.value;
      var rounded := RoundedBmi(p.weightKg, p.heightCm);
      ParseToFixed1(rounded);
      assert IsNumericChar(ToFixed1(rounded)[0]);
    }
  }

  /** The label agrees with the number on screen: reading the shown BMI
      text back and classifying it gives the shown category, and that
      number is the raw BMI to within half a tenth. */
  lemma ShownCategoryMatchesShownNumber(p: Patient)
    requires p.weightKg > 0.0 && p.heightCm > 0.0
    ensures var pnl := PanelFor(Some(p));
      && NumericText(pnl.bmiText)
      && ParseDecimal(pnl.bmiText).Some?
      && Classify(ParseDecimal(pnl.bmiText).value).Label() == pnl.categoryText
      && BmiOf(p.weightKg, p.heightCm) - 0.05 < ParseDecimal(pnl.bmiText).value
      && ParseDecimal(pnl.bmiText).value <= BmiOf(p.weightKg, p.heightCm) + 0.05
  {
    var rounded := RoundedBmi(p.weightKg, p.heightCm);
    BmiPositive(p.weightKg, p.heightCm);
    ParseToFixed1(rounded);
    RoundTenthIdempotent(BmiOf(p.weightKg, p.heightCm));
  }

  // ---- the page as loaded ----

  lemma SampleName()
    ensures Trim("John Doe") == "John Doe"
  {
    assert TrimStart("John Doe") == "John Doe";
    assert TrimEnd("John Doe") == "John Doe";
  }

  lemma SampleDigits()
    ensures NatText(70) == "70" && NatText(170) == "170"
  {
    assert NatText(7) == "7";
    assert NatText(17) == "17";
  }

  lemma SampleFields()
    ensures ParseField("70") == Some(70.0)
    ensures ParseField("170") == Some(170.0)
  {
    ParseFieldNat(70);
    ParseFieldNat(170);
    SampleDigits();
  }

  lemma SampleBmiText()
    ensures ToFixed1(24.2) == "24.2"
  {
    assert (10.0 * 24.2 + 0.5).Floor == 242;
  }

  /** The sample values the page loads with form a valid record, shown as
      BMI 24.2 in the Normal weight band. */
  lemma SamplePage()
    ensures Check("John Doe", "70", "170") == Some(Patient("John Doe", 70.0, 170.0))
    ensures PanelFor(Check("John Doe", "70", "170")).bmiText == "24.2"
    ensures PanelFor(Check("John Doe", "70", "170")).categoryText == "Normal weight"
  {
    SampleName();
    SampleFields();
    Scenario70At170();
    SampleBmiText();
  }

  /** Which field an input event came from. */
  datatype Field = NameField | WeightField | HeightField

  /** The values of the three input fields. */
  datatype Inputs = Inputs(name: string, weight: string, height: string)

  /** The page as the handlers see it: the input fields, the three error
      texts under them, the result panel and the status line. */
  class BmiForm {
    var inputs: Inputs
    var errors: FieldErrors
    var panel: Panel
    var status: string

    /** The state between events: the measurement fields are in sanitised
        form, the error texts are those of the current fields, and the panel
        is drawn from the validation result of the current fields. */
    predicate Consistent()
      reads this
    {
      && inputs.weight == Sanitize(inputs.weight)
      && inputs.height == Sanitize(inputs.height)
      && errors == ErrorsOf(inputs.name, inputs.weight, inputs.height)
      && panel == PanelFor(Check(inputs.name, inputs.weight, inputs.height))
    }

    /** The page as loaded: the three sample values, then a first
        `updateBMI`. */
    constructor ()
      ensures inputs == Inputs("John Doe", Sanitize("70"), Sanitize("170"))
      ensures panel.bmiText == "24.2" && panel.categoryText == "Normal weight" && panel.shown
      ensures Consistent() && status == ""
    {
      inputs := Inputs("John Doe", "70", "170");
      errors := NoErrors;
      panel := Panel("", "", "", false, false, false, false);
      status := "";
      new;
      UpdateBmi();
      SamplePage();
    }

    /** `validateInputs`: rewrites both measurement fields to their
        sanitised form, leaves the name field alone, sets each error text
        from its own check, and returns the record when all three pass.
        The panel and the status line do not change. */
    method Validate() returns (r: Option<Patient>)
      modifies this
      ensures inputs == Inputs(old(inputs).name, Sanitize(old(inputs).weight), Sanitize(old(inputs).height))
      ensures r == Check(old(inputs).name, old(inputs).weight, old(inputs).height)
      ensures errors == ErrorsOf(old(inputs).name, old(inputs).weight, old(inputs).height)
      ensures panel == old(panel) && status == old(status)
    {
      var weight, height;
      weight, height, r, errors := ValidateFields(inputs.name, inputs.weight, inputs.height);
      inputs := inputs.(weight := weight, height := height);
    }

    /** `updateBMI`: validates, then draws the panel for the result and
        clears the status line. The new state is consistent whatever the
        old one was. */
    method UpdateBmi()
      modifies this
      ensures inputs == Inputs(old(inputs).name, Sanitize(old(inputs).weight), Sanitize(old(inputs).height))
      ensures panel == PanelFor(Check(old(inputs).name, old(inputs).weight, old(inputs).height))
      ensures var failed := Check(old(inputs).name, old(inputs).weight, old(inputs).height).None?;
        && (panel.bmiText == Placeholder <==> failed)
        && (panel.shown <==> !failed)
        && panel.shareDisabled == panel.copyDisabled == panel.exportDisabled == failed
      ensures Consistent() && status == ""
    {
      ghost var given := inputs;
      var values := Validate();
      CheckSanitized(given.name, given.weight, given.height);
      PlaceholderIffInvalid(values);

      if values.None? {
        panel := Panel(Placeholder, "", Prompt, false, true, true, true);
        status := "";
        return;
      }

      var p := values.value;
      var bmi := BmiOf(p.weightKg, p.heightCm);
      BmiPositive(p.weightKg, p.heightCm);
      var bmiRounded := RoundTenth(bmi);
      var cat := Classify(bmiRounded);
      panel := Panel(ToFixed1(bmiRounded), cat.Label(), cat.Advice(), true, false, false, false);
      status := "";
    }

    /** An input, change or blur event on one field: the new text lands in
        the field, then `updateBMI` runs. */
    method Edit(field: Field, text: string)
      modifies this
      ensures inputs.name == (if field == NameField then text else old(inputs).name)
      ensures inputs.weight == Sanitize(if field == WeightField then text else old(inputs).weight)
      ensures inputs.height == Sanitize(if field == HeightField then text else old(inputs).height)
      ensures Consistent() && status == ""
    {
      match field {
        case NameField => inputs := inputs.(name := text);
        case WeightField => inputs := inputs.(weight := text);
        case HeightField => inputs := inputs.(height := text);
      }
      UpdateBmi();
    }

    /** `shareResult`: with invalid input only the guard message is set
        and nothing is shared; otherwise the six-line summary is built from
        the record and from the panel, and the status reports what the
        share sheet did. The panel is left as it was. */
    method Share(outcome: Outcome) returns (summary: Option<string>)
      modifies this
      ensures inputs == Inputs(old(inputs).name, Sanitize(old(inputs).weight), Sanitize(old(inputs).height))
      ensures errors == ErrorsOf(old(inputs).name, old(inputs).weight, old(inputs).height)
      ensures panel == old(panel)
      ensures var r := Check(old(inputs).name, old(inputs).weight, old(inputs).height);
        && (r.None? ==> summary.None? && status == ShareGuard)
        && (r.Some? ==> (status == ShareStatus(outcome)
              && summary == Some(Summary(r.value.name, ToFixed1(r.value.weightKg),
                                         ToFixed1(r.value.heightCm), panel.bmiText, panel.categoryText))))
      ensures old(Consistent()) ==> Consistent()
      ensures old(Consistent())
          ==> panel == PanelFor(Check(old(inputs).name, old(inputs).weight, old(inputs).height))
    {
      ghost var given := inputs;
      var values := Validate();
      CheckSanitized(given.name, given.weight, given.height);
      if values.None? {
        status := ShareGuard;
        return None;
      }
      var p := values.value;
      summary := Some(Summary(p.name, ToFixed1(p.weightKg), ToFixed1(p.heightCm), panel.bmiText, panel.categoryText));
      status := ShareStatus(outcome);
    }

    /** `copyNameAndBMI`: with invalid input only the guard message is set;
        otherwise the one-line text of name and shown BMI is built, and the
        status reports what the clipboard did. */
    method CopyNameAndBmi(outcome: Outcome) returns (text: Option<string>)
      modifies this
      ensures inputs == Inputs(old(inputs).name, Sanitize(old(inputs).weight), Sanitize(old(inputs).height))
      ensures errors == ErrorsOf(old(inputs).name, old(inputs).weight, old(inputs).height)
      ensures panel == old(panel)
      ensures var r := Check(old(inputs).name, old(inputs).weight, old(inputs).height);
        && (r.None? ==> text.None? && status == CopyGuard)
        && (r.Some? ==> (status == CopyStatus(outcome)
              && text == Some(CopyText(r.value.name, panel.bmiText))))
      ensures old(Consistent()) ==> Consistent()
      ensures old(Consistent())
          ==> panel == PanelFor(Check(old(inputs).name, old(inputs).weight, old(inputs).height))
    {
      ghost var given := inputs;
      var values := Validate();
      CheckSanitized(given.name, given.weight, given.height);
      if values.None? {
        status := CopyGuard;
        return None;
      }
      text := Some(CopyText(values.value.name, panel.bmiText));
      status := CopyStatus(outcome);
    }

    /** `exportCSV`: with invalid input only the guard message is set;
        otherwise the two-row CSV is built from the record and the panel,
        and the status says the file was saved. */
    method ExportCsvFile() returns (csv: Option<string>)
      modifies this
      ensures inputs == Inputs(old(inputs).name, Sanitize(old(inputs).weight), Sanitize(old(inputs).height))
      ensures errors == ErrorsOf(old(inputs).name, old(inputs).weight, old(inputs).height)
      ensures panel == old(panel)
      ensures var r := Check(old(inputs).name, old(inputs).weight, old(inputs).height);
        && (r.None? ==> csv.None? && status == ExportGuard)
        && (r.Some? ==> (status == ExportDone
              && csv == Some(ExportCsv(r.value.name, ToFixed1(r.value.weightKg),
                                       ToFixed1(r.value.heightCm), panel.bmiText, panel.categoryText))))
      ensures old(Consistent()) ==> Consistent()
      ensures old(Consistent())
          ==> panel == PanelFor(Check(old(inputs).name, old(inputs).weight, old(inputs).height))
    {
      ghost var given := inputs;
      var values := Validate();
      CheckSanitized(given.name, given.weight, given.height);
      if values.None? {
        status := ExportGuard;
        return None;
      }
      var p := values.value;
      csv := Some(ExportCsv(p.name, ToFixed1(p.weightKg), ToFixed1(p.heightCm), panel.bmiText, panel.categoryText));
      status := ExportDone;
    }
  }

  /** In a consistent state the copied text reads back as the record's
      name and the BMI on screen, which is the record's rounded BMI. */
  lemma CopiedTextReadsBack(name: string, weightText: string, heightText: string)
    requires Check(name, weightText, heightText).Some?
    ensures var p := Check(name, weightText, heightText).value;
      var shown := PanelFor(Some(p)).bmiText;
      && shown == ToFixed1(RoundedBmi(p.weightKg, p.heightCm))
      && ReadCopyText(CopyText(p.name, shown)) == Some((p.name, shown))
  {
    var p := Check(name, weightText, heightText).value;
    ParseToFixed1(RoundedBmi(p.weightKg, p.heightCm));
    ReadCopyTextBack(p.name, ToFixed1(RoundedBmi(p.weightKg, p.heightCm)));
  }
}
