/** Adding a single tenant by hand: the form's guard and the record it builds.
    The form holds four strings, so it is a `Tenant<string>`. The "is not a
    number" test (`isNaN`, which coerces its argument as `Number` does) and the
    conversion (`parseFloat`) are parameters: nothing here assumes they agree
    with each other or with the conversion of the import path. */
module FormValidation {
  import opened Results
  import opened JsStrings
  import opened Tenants
  import opened CsvImport

  /** The message the form shows when its guard fails. */
  const InvalidFormMessage := "请填写所有字段且必须为数字"

  /** The three amount fields of the form, in order. */
  function Amounts(form: Tenant<string>): seq<string> {
    [form.water, form.electricity, form.rent]
  }

  /** `!name || isNaN(water) || isNaN(electricity) || isNaN(rent)` rejects the
      form; otherwise the record is the form with its amounts parsed. */
  function ValidateForm<N>(form: Tenant<string>, isNaN: string -> bool, parseFloat: string -> N)
    : (r: Result<Tenant<N>, string>)
    ensures r.Success? <==> form.name != [] && forall a :: a in Amounts(form) ==> !isNaN(a)
    ensures r.Success? ==> r.value == ConvertAmounts(form, parseFloat)
    ensures r.Failure? ==> r.error == InvalidFormMessage
  {
    if form.name == [] || isNaN(form.water) || isNaN(form.electricity) || isNaN(form.rent) then
      Failure(InvalidFormMessage)
    else
      Success(Tenant(form.name, parseFloat(form.water), parseFloat(form.electricity), parseFloat(form.rent)))
  }

  /** What submitting the form comes to. */
  datatype AddOutcome<N> =
    | Rejected(message: string)
    | InsertFailed(message: string)
    | Added(record: Tenant<N>)

  /** The submit handler: the guard, then one insert of the single record, whose
      error message is shown. */
  function AddTenant<N>(form: Tenant<string>, isNaN: string -> bool, parseFloat: string -> N,
                        insert: seq<Tenant<N>> -> Option<string>): (r: AddOutcome<N>)
    ensures r.Rejected? <==> ValidateForm(form, isNaN, parseFloat).Failure?
    ensures r.Rejected? ==> r.message == InvalidFormMessage
    ensures r.InsertFailed? ==> insert([ConvertAmounts(form, parseFloat)]) == Some(r.message)
    ensures r.Added? ==> r.record == ConvertAmounts(form, parseFloat) && insert([r.record]) == None
  {
    match ValidateForm(form, isNaN, parseFloat)
    case Failure(message) => Rejected(message)
    case Success(record) =>
      match insert([record])
      case Some(message) => InsertFailed(message)
      case None => Added(record)
  }

  /** A rejected form never reaches the store: the outcome is the same whatever
      the store would have done. */
  lemma RejectedFormSkipsStore<N>(form: Tenant<string>, isNaN: string -> bool, parseFloat: string -> N,
                                  insert1: seq<Tenant<N>> -> Option<string>,
                                  insert2: seq<Tenant<N>> -> Option<string>)
    requires ValidateForm(form, isNaN, parseFloat).Failure?
    ensures AddTenant(form, isNaN, parseFloat, insert1) == AddTenant(form, isNaN, parseFloat, insert2)
            == Rejected(InvalidFormMessage)
  {
  }

  /** The name is tested only for being empty and is never trimmed: a name made of
      spaces passes and is stored as typed, although its trim is empty. */
  lemma WhitespaceNameAccepted<N>(form: Tenant<string>, isNaN: string -> bool, parseFloat: string -> N)
    requires form.name != [] && AllWhitespace(form.name)
    requires !isNaN(form.water) && !isNaN(form.electricity) && !isNaN(form.rent)
    ensures Trim(form.name) == []
    ensures ValidateForm(form, isNaN, parseFloat).Success?
    ensures ValidateForm(form, isNaN, parseFloat).value.name == form.name
  {
    TrimEmptyIffAllWhitespace(form.name);
  }

  /** An empty amount is not rejected for being empty: only the numeric test on
      `""` decides, and when it passes the amount is whatever `parseFloat("")`
      gives. */
  lemma EmptyAmountsJudgedByTest<N>(name: string, isNaN: string -> bool, parseFloat: string -> N)
    requires name != []
    ensures ValidateForm(Tenant(name, "", "", ""), isNaN, parseFloat).Success? <==> !isNaN("")
    ensures !isNaN("") ==>
      ValidateForm(Tenant(name, "", "", ""), isNaN, parseFloat).value
        == Tenant(name, parseFloat(""), parseFloat(""), parseFloat(""))
  {
    assert Amounts(Tenant(name, "", "", "")) == ["", "", ""];
  }

  /** On a row that survives the file layout unchanged, a form that passes its
      guard builds the same record as the import of that row's line, when both use
      the same conversion. */
  lemma FormAgreesWithImport<N>(row: Tenant<string>, isNaN: string -> bool, toNumber: string -> N)
    requires IsPlainRow(row)
    requires ValidateForm(row, isNaN, toNumber).Success?
    ensures ParseLine(FormatLine(row), toNumber) == Success(ValidateForm(row, isNaN, toNumber).value)
  {
    ParseFormattedLine(row, toNumber);
  }

  /** The import does no numeric check: a line whose amount fails the form's test
      is imported all the same, while the form rejects the same row. */
  lemma ImportAcceptsWhatFormRejects<N>(row: Tenant<string>, isNaN: string -> bool, toNumber: string -> N)
    requires IsPlainRow(row)
    requires isNaN(row.water) || isNaN(row.electricity) || isNaN(row.rent)
    ensures ParseLine(FormatLine(row), toNumber) == Success(ConvertAmounts(row, toNumber))
    ensures ValidateForm(row, isNaN, toNumber).Failure?
  {
    ParseFormattedLine(row, toNumber);
    assert row.water in Amounts(row) && row.electricity in Amounts(row) && row.rent in Amounts(row);
  }

  /** The import does not insist on a name either: a line with an empty first
      field is a record with the empty name, which the form would refuse. */
  lemma ImportAcceptsEmptyName<N>(isNaN: string -> bool, toNumber: string -> N)
    ensures ParseLine(",1,2,3", toNumber) == Success(Tenant("", toNumber("1"), toNumber("2"), toNumber("3")))
    ensures ValidateForm(Tenant("", "1", "2", "3"), isNaN, toNumber).Failure?
  {
    assert Trim("") == "" by { TrimOfTrimmed(""); }
    assert Trim("1") == "1" by { TrimOfTrimmed("1"); }
    assert Trim("2") == "2" by { TrimOfTrimmed("2"); }
    assert Trim("3") == "3" by { TrimOfTrimmed("3"); }
    calc {
      ParseLine(",1,2,3", toNumber);
      { assert ",1,2,3" == "" + "," + "1" + "," + "2" + "," + "3" + []; }
      ParseLine("" + "," + "1" + "," + "2" + "," + "3" + [], toNumber);
      { ParseLineFields("", "1", "2", "3", [], toNumber); }
      Success(Tenant(Trim(""), toNumber(Trim("1")), toNumber(Trim("2")), toNumber(Trim("3"))));
      Success(Tenant("", toNumber("1"), toNumber("2"), toNumber("3")));
    }
  }
}
