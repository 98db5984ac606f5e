/** The instrument check in `main` (OscScreenGrabLAN.py:160-172): the
    `*IDN?` reply is split at commas into company, model, serial and
    firmware; a reply of exactly "command error" means LAN control is off. */
module InstrumentId {
  import opened Sequences

  /** What `main` makes of the `*IDN?` reply. */
  datatype IdCheck =
    | LanDisabled        // "command error": the script exits
    | MissingModelField  // fewer than two fields: `id_fields[1]` raises IndexError
    | Recognized         // a DS1000Z from Rigol: carry on silently
    | Unrecognized       // warn and ask whether to continue

  const CommandError: string := "command error"
  const Company: string := "RIGOL TECHNOLOGIES"
  const Series: string := "DS1"

  /** A DS1000Z model name: it starts with "DS1" and ends with 'Z'. */
  predicate IsSeriesModel(model: string)
  {
    |model| >= |Series| && model[..|Series|] == Series && model[|model| - 1] == 'Z'
  }

  /** The check as `main` runs it. With only one field the condition raises
      when the company matches (`id_fields[1][:3]`) and the warning raises
      when it does not, so both end in MissingModelField. The `or` stops at
      the first failing test, and `[-1]` is reached only on a model that
      starts with "DS1", hence is not empty. */
  function CheckInstrumentId(id: string): (r: IdCheck)
    ensures r == LanDisabled <==> id == CommandError
    ensures r == MissingModelField <==> id != CommandError && ',' !in id
    ensures r.Recognized? || r.Unrecognized? <==> id != CommandError && ',' in id
  {
    if id == CommandError then
      LanDisabled
    else
      var fields := Split(id, ',');
      SplitParts(id, ',');
      CountZero(id, ',');
      if |fields| < 2 then
        MissingModelField
      else if fields[0] != Company || Slice(fields[1], 0, 3) != Series || fields[1][|fields[1]| - 1] != 'Z' then
        Unrecognized
      else
        Recognized
  }

  /** A reply made of a company field, a model field and any further fields
      is accepted exactly when the company is Rigol's and the model is a
      DS1000Z one; the other fields play no part. */
  lemma RecognizedFields(company: string, model: string, others: seq<string>)
    requires ',' !in company && ',' !in model
    requires forall i | 0 <= i < |others| :: ',' !in others[i]
    ensures CheckInstrumentId(Join([company, model] + others, ',')) == Recognized
      <==> company == Company && IsSeriesModel(model)
    ensures CheckInstrumentId(Join([company, model] + others, ',')) != Recognized
      ==> CheckInstrumentId(Join([company, model] + others, ',')) == Unrecognized
  {
    var id := Join([company, model] + others, ',');
    SplitJoinHeads(company, model, others, ',');
    NoCommaInCommandError();
    SeriesPrefix(model);
  }

  lemma NoCommaInCommandError()
    ensures ',' !in CommandError
  {
    forall i | 0 <= i < |CommandError|
      ensures CommandError[i] != ','
    {
    }
  }

  /** The `[:3]` test against "DS1" is the prefix test. */
  lemma SeriesPrefix(model: string)
    ensures Slice(model, 0, 3) == Series <==> |model| >= |Series| && model[..|Series|] == Series
  {
    if |model| >= 3 {
      assert Slice(model, 0, 3) == model[..3];
    } else {
      assert |Slice(model, 0, 3)| != |Series|;
    }
  }

  /** A DS1054Z's reply is accepted. */
  lemma AcceptsDs1054z()
    ensures CheckInstrumentId(Join([Company, "DS1054Z", "DS1ZA000000000", "00.04.04.SP3"], ',')) == Recognized
  {
    var others := ["DS1ZA000000000", "00.04.04.SP3"];
    assert ',' !in others[0] && ',' !in others[1];
    RecognizedFields(Company, "DS1054Z", others);
    assert [Company, "DS1054Z"] + others == [Company, "DS1054Z", "DS1ZA000000000", "00.04.04.SP3"];
  }

  /** An older DS1102E from the same company is not: its model does not end
      in 'Z'. */
  lemma WarnsOnDs1102e()
    ensures CheckInstrumentId(Join([Company, "DS1102E", "DS1EB000000000", "00.04.01"], ',')) == Unrecognized
  {
    var others := ["DS1EB000000000", "00.04.01"];
    assert ',' !in others[0] && ',' !in others[1];
    RecognizedFields(Company, "DS1102E", others);
    assert [Company, "DS1102E"] + others == [Company, "DS1102E", "DS1EB000000000", "00.04.01"];
  }

  /** A bare company name has no model field. */
  lemma BareCompanyFails()
    ensures CheckInstrumentId(Company) == MissingModelField
  {
    assert ',' !in Company;
  }
}
