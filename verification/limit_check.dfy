/**
  The limit check of the parameter viewer: for the selected code, each of
  the four user inputs is compared with the configured maximum of the same
  field, both converted to days, and one message is produced for every
  field whose input exceeds its maximum. An empty list of messages means
  that all parameters are within limits.
*/
module LimitCheck {
  import opened Wrappers
  import opened Duration

  /** The four limit fields, in the order the form and both dictionaries
      list them. */
  datatype Field = Frequency | FIDataRange | ConsentValidity | DataLife

  const Fields: seq<Field> := [Frequency, FIDataRange, ConsentValidity, DataLife]

  /** Where a field stands in `Fields`. */
  function Position(f: Field): (p: nat)
    ensures p < |Fields| && Fields[p] == f
  {
    match f
    case Frequency => 0
    case FIDataRange => 1
    case ConsentValidity => 2
    case DataLife => 3
  }

  /** The dictionary key (and spreadsheet column) of a field. */
  function Key(f: Field): string {
    match f
    case Frequency => "Maximum Frequency"
    case FIDataRange => "Maximum FI Data Range"
    case ConsentValidity => "Maximum Consent Validity"
    case DataLife => "Maximum Data Life"
  }

  /** One value per field: a row of the sheet, the configured maxima or
      the user's inputs. */
  datatype PerField<T> = PerField(frequency: T, fiDataRange: T, consentValidity: T, dataLife: T)
  {
    function Get(f: Field): T {
      match f
      case Frequency => frequency
      case FIDataRange => fiDataRange
      case ConsentValidity => consentValidity
      case DataLife => dataLife
    }
  }

  /** A spreadsheet cell of the limit row; `None` is a missing (NaN) cell,
      which stands for the string `'0'`. */
  function CellOrZero(cell: Option<string>): string {
    match cell
    case Some(s) => s
    case None => "0"
  }

  /** `max_values`: the configured maxima of the selected row. */
  function MaxValues(row: PerField<Option<string>>): (maxes: PerField<string>)
    ensures forall f :: row.Get(f).Some? ==> maxes.Get(f) == row.Get(f).value
    ensures forall f :: row.Get(f).None? ==> maxes.Get(f) == "0"
  {
    PerField(CellOrZero(row.frequency), CellOrZero(row.fiDataRange),
             CellOrZero(row.consentValidity), CellOrZero(row.dataLife))
  }

  /** The comparison of the source, zero-maximum clause included; the
      clause adds nothing to plain "greater than". */
  function Exceeds(inputDays: int, maxDays: int): (exceeded: bool)
    ensures exceeded <==> inputDays > maxDays
  {
    (maxDays == 0 && inputDays > 0) || inputDays > maxDays
  }

  /** A field is reported when its input is not blank and converts to
      more days than its maximum. */
  predicate Flagged(input: string, max: string) {
    input != "" && Exceeds(ConvertToDays(input), ConvertToDays(max))
  }

  /** The message for an exceeded field, quoting the raw strings. */
  function Message(f: Field, input: string, max: string): string {
    Key(f) + " exceeded: " + input + " > " + max
  }

  /** The messages for the fields `fs`, in order: the list the loop builds
      after visiting `fs`. */
  function Violations(fs: seq<Field>, inputs: PerField<string>, maxes: PerField<string>): seq<string> {
    if fs == [] then []
    else
      var f := fs[|fs| - 1];
      Violations(fs[..|fs| - 1], inputs, maxes)
      + (if Flagged(inputs.Get(f), maxes.Get(f)) then [Message(f, inputs.Get(f), maxes.Get(f))] else [])
  }

  /** The fields of `fs` appear in the fixed order, each at most once. */
  predicate Increasing(fs: seq<Field>) {
    forall a, b | 0 <= a < b < |fs| :: Position(fs[a]) < Position(fs[b])
  }

  // A fact about the constant `Fields`, used by the ordering proofs.
  lemma FieldsIncreasing()
    ensures Increasing(Fields)
  {
    assert Position(Fields[0]) == 0 && Position(Fields[1]) == 1;
    assert Position(Fields[2]) == 2 && Position(Fields[3]) == 3;
  }

  /** Appending a field that comes after every field already present
      keeps the order. */
  lemma IncreasingSnoc(fs: seq<Field>, f: Field)
    ensures Increasing(fs) && (forall g | g in fs :: Position(g) < Position(f)) ==> Increasing(fs + [f])
  {
    if Increasing(fs) && forall g | g in fs :: Position(g) < Position(f) {
      forall a, b | 0 <= a < b < |fs| + 1 ensures Position((fs + [f])[a]) < Position((fs + [f])[b]) {
        if b == |fs| {
          assert fs[a] in fs;
        }
      }
    }
  }

  /** The fields of `fs` that are reported, in the order of `fs`. */
  function FlaggedFields(fs: seq<Field>, inputs: PerField<string>, maxes: PerField<string>): (r: seq<Field>)
    ensures |r| <= |fs|
    ensures forall f :: f in r <==> f in fs && Flagged(inputs.Get(f), maxes.Get(f))
    ensures Increasing(fs) ==> Increasing(r)
  {
    if fs == [] then []
    else
      var init := fs[..|fs| - 1];
      var f := fs[|fs| - 1];
      assert fs == init + [f];
      var done := FlaggedFields(init, inputs, maxes);
      var flagged := Flagged(inputs.Get(f), maxes.Get(f));
      assert Increasing(fs) ==> Increasing(init) && forall g | g in init :: Position(g) < Position(f) by {
        if Increasing(fs) {
          forall g | g in init ensures Position(g) < Position(f) {
            var a :| 0 <= a < |init| && init[a] == g;
            assert fs[a] == g;
          }
        }
      }
      IncreasingSnoc(done, f);
      if flagged then done + [f] else done
  }

  /** `messages` holds the message of each field of `done`, in order. */
  predicate MessagesOf(messages: seq<string>, done: seq<Field>, inputs: PerField<string>, maxes: PerField<string>) {
    |messages| == |done|
    && forall k | 0 <= k < |done| :: messages[k] == Message(done[k], inputs.Get(done[k]), maxes.Get(done[k]))
  }

  /** Reporting one more field appends its message after the others. */
  lemma MessagesOfSnoc(messages: seq<string>, done: seq<Field>, f: Field, inputs: PerField<string>, maxes: PerField<string>)
    requires MessagesOf(messages, done, inputs, maxes)
    ensures MessagesOf(messages + [Message(f, inputs.Get(f), maxes.Get(f))], done + [f], inputs, maxes)
  {
  }

  /** The messages are exactly one per reported field, in the same order. */
  lemma {:induction false} ViolationsAreMessages(fs: seq<Field>, inputs: PerField<string>, maxes: PerField<string>)
    ensures MessagesOf(Violations(fs, inputs, maxes), FlaggedFields(fs, inputs, maxes), inputs, maxes)
  {
    if fs != [] {
      var init, f := fs[..|fs| - 1], fs[|fs| - 1];
      ViolationsAreMessages(init, inputs, maxes);
      MessagesOfSnoc(Violations(init, inputs, maxes), FlaggedFields(init, inputs, maxes), f, inputs, maxes);
    }
  }

  /** Visiting one more field appends at most its own message. */
  lemma ViolationsStep(fs: seq<Field>, i: nat, inputs: PerField<string>, maxes: PerField<string>)
    requires i < |fs|
    ensures var f := fs[i];
      Violations(fs[..i + 1], inputs, maxes) == Violations(fs[..i], inputs, maxes)
        + (if Flagged(inputs.Get(f), maxes.Get(f)) then [Message(f, inputs.Get(f), maxes.Get(f))] else [])
  {
    assert fs[..i + 1][..i] == fs[..i];
  }

  /** At most one message per field. */
  lemma {:induction false} ViolationsBound(fs: seq<Field>, inputs: PerField<string>, maxes: PerField<string>)
    ensures |Violations(fs, inputs, maxes)| <= |fs|
  {
    if fs != [] {
      ViolationsBound(fs[..|fs| - 1], inputs, maxes);
    }
  }

  /** The list of messages for the whole form. */
  function Report(inputs: PerField<string>, row: PerField<Option<string>>): seq<string> {
    Violations(Fields, inputs, MaxValues(row))
  }

  /** The report holds at most one message per field, for exactly the
      fields whose non-blank input converts to more days than the maximum,
      in the order Frequency, FI Data Range, Consent Validity, Data Life. */
  lemma ReportCharacterised(inputs: PerField<string>, row: PerField<Option<string>>)
    ensures var maxes := MaxValues(row);
      var flagged := FlaggedFields(Fields, inputs, maxes);
      && |Report(inputs, row)| == |flagged| <= |Fields|
      && Increasing(flagged)
      && (forall f :: f in flagged <==>
            inputs.Get(f) != "" && ConvertToDays(inputs.Get(f)) > ConvertToDays(maxes.Get(f)))
      && (forall k | 0 <= k < |flagged| ::
            Report(inputs, row)[k] == Message(flagged[k], inputs.Get(flagged[k]), maxes.Get(flagged[k])))
  {
    var maxes := MaxValues(row);
    ViolationsAreMessages(Fields, inputs, maxes);
    FieldsIncreasing();
    assert forall f :: f in Fields by {
      forall f ensures f in Fields {
        assert Fields[Position(f)] == f;
      }
    }
  }

  /** An empty report means every non-blank input is within its limit,
      and the other way round. */
  lemma AllWithinLimits(inputs: PerField<string>, row: PerField<Option<string>>)
    ensures Report(inputs, row) == [] <==>
      forall f :: inputs.Get(f) == "" || ConvertToDays(inputs.Get(f)) <= ConvertToDays(MaxValues(row).Get(f))
  {
    ReportCharacterised(inputs, row);
    var flagged := FlaggedFields(Fields, inputs, MaxValues(row));
    assert flagged != [] ==> flagged[0] in flagged;
  }

  /** A blank input is skipped, and a whitespace-only one is checked but
      converts to 0 days, so neither is ever reported. */
  lemma BlankNeverReported(inputs: PerField<string>, row: PerField<Option<string>>, f: Field)
    requires AllSpace(inputs.Get(f))
    ensures f !in FlaggedFields(Fields, inputs, MaxValues(row))
  {
    var input := inputs.Get(f);
    ConvertBareDigits(input, "", "");
    assert input + "" + "" == input;
  }

  /** A missing maximum reads as `'0'`, i.e. 0 days, so any non-blank
      input that converts to a positive number of days is reported. */
  lemma MissingLimitIsZero(inputs: PerField<string>, row: PerField<Option<string>>, f: Field)
    requires row.Get(f) == None
    ensures ConvertToDays(MaxValues(row).Get(f)) == 0
    ensures f in FlaggedFields(Fields, inputs, MaxValues(row)) <==>
      inputs.Get(f) != "" && ConvertToDays(inputs.Get(f)) > 0
  {
    ConvertBareDigits("", "0", "");
    assert "" + "0" + "" == "0";
    ReportCharacterised(inputs, row);
  }

  /** Inputs and maxima written as `"<n> <unit>"`: a field is reported
      exactly when the input's day count exceeds the maximum's, e.g. 400
      days against a maximum of 1 years (365 days). */
  lemma DecimalFlagged(n: nat, inputUnit: Unit, m: nat, maxUnit: Unit)
    ensures Flagged(DecimalString(n) + " " + UnitWord(inputUnit), DecimalString(m) + " " + UnitWord(maxUnit))
      <==> n * Factor(inputUnit) > m * Factor(maxUnit)
  {
    ConvertDecimal(n, inputUnit);
    ConvertDecimal(m, maxUnit);
  }

  /** Example: `"400 days"` against a maximum of `"1 years"` (365 days)
      is reported. */
  lemma FlaggedExample(input: string, max: string)
    requires input == "400 days" && max == "1 years"
    ensures ConvertToDays(input) == 400 && ConvertToDays(max) == 365
    ensures Flagged(input, max)
  {
    assert [] + "400" + " " + "days" + [] == input;
    assert [] + "1" + " " + "years" + [] == max;
    assert SameIgnoringCase("days", UnitWord(Days));
    assert SameIgnoringCase("years", UnitWord(Years));
    assert DigitsValue("400") == 400 && DigitsValue("1") == 1;
    ConvertRecognised([], "400", " ", "days", [], Days);
    ConvertRecognised([], "1", " ", "years", [], Years);
  }

  /** A maximum that converts to 0 days (`NA`, a missing cell, an
      unrecognised string) forbids every input of a positive duration. */
  lemma ZeroLimitForbidsPositive(input: string, max: string)
    requires ConvertToDays(max) == 0
    ensures Flagged(input, max) <==> input != "" && ConvertToDays(input) > 0
  {
  }

  /** The loop of the form handler: visits the fields in order, skips
      blank inputs, converts both values and appends a message for every
      field whose input exceeds its maximum. */
  method CheckLimits(inputs: PerField<string>, row: PerField<Option<string>>) returns (results: seq<string>)
    ensures results == Report(inputs, row)
    ensures |results| <= |Fields|
  {
    var maxValues := MaxValues(row);
    results := [];
    for i := 0 to |Fields|
      invariant results == Violations(Fields[..i], inputs, maxValues)
    {
      var key := Fields[i];
      var inputValue := inputs.Get(key);
      var maxValue := maxValues.Get(key);
      ViolationsStep(Fields, i, inputs, maxValues);
      if inputValue != "" {
        var inputDays := ConvertToDays(inputValue);
        var maxDays := ConvertToDays(maxValue);
        if (maxDays == 0 && inputDays > 0) || inputDays > maxDays {
          results := results + [Message(key, inputValue, maxValue)];
        }
      }
    }
    assert Fields[..|Fields|] == Fields;
    ViolationsBound(Fields, inputs, maxValues);
  }
}
