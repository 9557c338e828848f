/** The new-applicant form: the text fields (the standard ones and one per
    custom field), the attached files, the "add custom field" inputs and
    the submit cycle with its error message. */
module Form {
  import opened Optional
  import opened Text
  import opened Dates
  import opened Records
  import opened Context

  /** The standard text fields, every one starting empty. */
  const StandardKeys: set<string> := {
    "job_applied_for", "country_of_destination",
    "first_name", "middle_name", "last_name", "gender", "date_of_birth", "age",
    "nationality", "civil_status",
    "contact_number_1", "contact_number_2", "social_media_fb", "social_media_tiktok",
    "social_media_ig", "email",
    "street_address", "barangay", "city", "province", "postal_code",
    "emergency_contact_name", "emergency_contact_number", "emergency_contact_fb",
    "emergency_contact_tiktok", "emergency_contact_ig", "emergency_contact_street",
    "emergency_contact_barangay", "emergency_contact_city", "emergency_contact_province",
    "emergency_contact_postal",
    "work_country", "years_of_experience", "job_position",
    "remarks"
  }

  /** The document categories, every one starting without a file. */
  const DocumentKeys: set<string> := {
    "resume", "application_form", "ids_passport", "medical_results",
    "signed_contracts", "visa_copy", "other_documents"
  }

  /** The document slots with no file chosen. */
  function NoDocuments(): map<string, Option<FileHandle>> {
    map k | k in DocumentKeys :: None
  }

  /** The ids of a list of custom-field definitions. */
  function FieldIds(fields: seq<FieldDef>): set<string> {
    set i | 0 <= i < |fields| :: fields[i].id
  }

  /** The reset form: every standard field, then (in order) every custom
      field, set to the empty string. */
  function BlankForm(fields: seq<FieldDef>): map<string, string> {
    if fields == [] then map k | k in StandardKeys :: ""
    else BlankForm(fields[..|fields| - 1])[fields[|fields| - 1].id := ""]
  }

  /** The reset form has exactly the standard keys and the custom-field
      ids, all empty. */
  lemma {:induction false} BlankFormSpec(fields: seq<FieldDef>)
    ensures BlankForm(fields).Keys == StandardKeys + FieldIds(fields)
    ensures forall k :: k in BlankForm(fields) ==> BlankForm(fields)[k] == ""
  {
    if fields != [] {
      var init := fields[..|fields| - 1];
      var last := fields[|fields| - 1];
      BlankFormSpec(init);
      assert FieldIds(fields) == FieldIds(init) + {last.id} by {
        forall x | x in FieldIds(fields) ensures x in FieldIds(init) + {last.id} {
          var i :| 0 <= i < |fields| && fields[i].id == x;
          if i < |fields| - 1 {
            assert init[i] == fields[i];
          }
        }
        forall x | x in FieldIds(init) ensures x in FieldIds(fields) {
          var i :| 0 <= i < |init| && init[i].id == x;
          assert fields[i] == init[i];
        }
      }
    }
  }

  // ---------------------------------------------------------------------
  // Age from the date of birth
  // ---------------------------------------------------------------------

  /** `calculateAge`: empty for an empty date, the whole-year age as of
      `today` for a `yyyy-mm-dd` date, and `NaN` for text that is not a
      date. The age is kept as its decimal text. */
  function CalculateAge(dateOfBirth: string, today: Date): (age: string)
    ensures age == "" <==> dateOfBirth == ""
    ensures dateOfBirth != "" && ParseIsoDate(dateOfBirth) == None ==> age == "NaN"
  {
    if dateOfBirth == "" then ""
    else match ParseIsoDate(dateOfBirth)
      case None => "NaN"
      case Some(birth) => IntToDecimal(AgeYears(birth, today))
  }

  /** A date the date picker produces gives the age counted in birthdays
      reached, and the age is empty exactly when the date is. */
  lemma CalculateAgeOfPickedDate(birth: Date, today: Date)
    requires Writable(birth)
    ensures CalculateAge(FormatIsoDate(birth), today) == IntToDecimal(AgeYears(birth, today))
    ensures CalculateAge(FormatIsoDate(birth), today) != ""
  {
    IsoDateRoundTrip(birth);
  }

  /** Someone born on 1990-05-15 is 33 on 2024-05-14 and 34 from 2024-05-15. */
  lemma CalculateAgeAroundBirthday()
    ensures CalculateAge("1990-05-15", Date(2024, 5, 14)) == "33"
    ensures CalculateAge("1990-05-15", Date(2024, 5, 15)) == "34"
  {
    var s := "1990-05-15";
    assert |s| == 10 && s[4] == '-' && s[7] == '-';
    assert s[..4] == ['1', '9', '9', '0'] == "1990";
    assert s[5..7] == ['0', '5'] == "05";
    assert s[8..] == ['1', '5'] == "15";
    assert DecimalValue("1990") == 1990 by {
      assert "1990"[..3] == "199" && "199"[..2] == "19" && "19"[..1] == "1" && "1"[..0] == "";
    }
    assert DecimalValue("05") == 5 by {
      assert "05"[..1] == "0" && "0"[..0] == "";
    }
    assert DecimalValue("15") == 15 by {
      assert "15"[..1] == "1" && "1"[..0] == "";
    }
    assert ParseIsoDate(s) == Some(Date(1990, 5, 15));
    assert NatToDecimal(33) == "33" by {
      assert NatToDecimal(3) == "3";
    }
    assert NatToDecimal(34) == "34" by {
      assert NatToDecimal(3) == "3" && NatToDecimal(4) == "4";
    }
  }

  // ---------------------------------------------------------------------
  // The form
  // ---------------------------------------------------------------------

  /** How an add-custom-field click ended: nothing was requested (blank
      label), the request was made and the handler finished, or it stopped
      at a missing result (reading `success` of `undefined`). */
  datatype AddFieldOutcome = NotRequested | Requested(draft: FieldDraft) | Stopped(draft: FieldDraft)

  /** `label.trim()` is falsy: the label is white space only. */
  function TrimmedEmpty(caption: string): (b: bool)
    ensures b <==> Blank(caption)
  {
    TrimEmptyIffBlank(caption);
    Trim(caption) == ""
  }

  /** The definition requested for a label: `label.toLowerCase()` with
      every white-space run replaced by `_` as its id. */
  function DraftFor(caption: string, inputType: InputType): (d: FieldDraft)
    ensures d.caption == caption && d.inputType == inputType
    ensures d.id == DeriveFieldId(caption)
    ensures HasNoWhitespace(d.id) && IsLowerCase(d.id)
    ensures d.id == "" <==> caption == ""
  {
    DeriveFieldIdProperties(caption);
    FieldDraft(DeriveFieldId(caption), caption, inputType)
  }

  class ApplicantForm {
    var formData: map<string, string>
    var documents: map<string, Option<FileHandle>>
    var newFieldName: string
    var newFieldType: InputType
    var showSuccess: bool
    var isSubmitting: bool
    var submitError: Option<string>

    /** The form as it mounts: standard fields empty, no files, no pending
        custom field, no message. */
    constructor ()
      ensures formData == BlankForm([]) && documents == NoDocuments()
      ensures newFieldName == "" && newFieldType == TextInput
      ensures !showSuccess && !isSubmitting && submitError == None
    {
      formData := BlankForm([]);
      documents := NoDocuments();
      newFieldName := "";
      newFieldType := TextInput;
      showSuccess := false;
      isSubmitting := false;
      submitError := None;
    }

    /** `handleChange`: sets one field, keeping all others. */
    method HandleChange(name: string, value: string)
      modifies this
      ensures formData == old(formData)[name := value]
      ensures documents == old(documents) && newFieldName == old(newFieldName)
      ensures newFieldType == old(newFieldType) && showSuccess == old(showSuccess)
      ensures isSubmitting == old(isSubmitting) && submitError == old(submitError)
    {
      formData := formData[name := value];
    }

    /** `handleDateOfBirthChange`: sets the date and recomputes the age. */
    method HandleDateOfBirthChange(dateOfBirth: string, today: Date)
      modifies this
      ensures formData == old(formData)["date_of_birth" := dateOfBirth]["age" := CalculateAge(dateOfBirth, today)]
      ensures documents == old(documents) && newFieldName == old(newFieldName)
      ensures newFieldType == old(newFieldType) && showSuccess == old(showSuccess)
      ensures isSubmitting == old(isSubmitting) && submitError == old(submitError)
    {
      formData := formData["date_of_birth" := dateOfBirth]["age" := CalculateAge(dateOfBirth, today)];
    }

    /** `handleFileChange`: stores the first chosen file under its category;
        an empty selection changes nothing. */
    method HandleFileChange(fieldName: string, file: Option<FileHandle>)
      modifies this
      ensures documents == if file.Some? then old(documents)[fieldName := file] else old(documents)
      ensures formData == old(formData) && newFieldName == old(newFieldName)
      ensures newFieldType == old(newFieldType) && showSuccess == old(showSuccess)
      ensures isSubmitting == old(isSubmitting) && submitError == old(submitError)
    {
      if file.Some? {
        documents := documents[fieldName := file];
      }
    }

    /** `handleCustomFieldChange`: sets one custom field's value. */
    method HandleCustomFieldChange(fieldName: string, value: string)
      modifies this
      ensures formData == old(formData)[fieldName := value]
      ensures documents == old(documents) && newFieldName == old(newFieldName)
      ensures newFieldType == old(newFieldType) && showSuccess == old(showSuccess)
      ensures isSubmitting == old(isSubmitting) && submitError == old(submitError)
    {
      HandleChange(fieldName, value);
    }

    /** The label and type inputs of the "add custom field" row. */
    method SetNewField(name: string, inputType: InputType)
      modifies this
      ensures newFieldName == name && newFieldType == inputType
      ensures formData == old(formData) && documents == old(documents)
      ensures showSuccess == old(showSuccess)
      ensures isSubmitting == old(isSubmitting) && submitError == old(submitError)
    {
      newFieldName := name;
      newFieldType := inputType;
    }

    /** `handleAddCustomField`: for a label that is not blank (whose
        `trim()` is not empty), requests a definition whose id is derived
        from the label; on success adds an empty value under that id and
        clears the inputs. */
    method HandleAddCustomField(ctx: ApplicantProvider, resp: Response<FieldDef>) returns (outcome: AddFieldOutcome)
      requires ctx as object != this
      modifies this, ctx
      ensures Blank(old(newFieldName)) ==> outcome == NotRequested && unchanged(this) && unchanged(ctx)
      ensures !Blank(old(newFieldName)) ==>
        && ctx.applicants == old(ctx.applicants)
        && !outcome.NotRequested? && outcome.draft == DraftFor(old(newFieldName), old(newFieldType))
        && (outcome.Stopped? <==> resp.Declined?)
        && ctx.customFields == (if resp.Ok? then old(ctx.customFields) + [resp.data] else old(ctx.customFields))
      ensures !Blank(old(newFieldName)) && resp.Ok? ==>
        && formData == old(formData)[DeriveFieldId(old(newFieldName)) := ""]
        && newFieldName == "" && newFieldType == TextInput
      ensures !resp.Ok? ==> formData == old(formData) && newFieldName == old(newFieldName) && newFieldType == old(newFieldType)
      ensures documents == old(documents) && showSuccess == old(showSuccess)
      ensures isSubmitting == old(isSubmitting) && submitError == old(submitError)
    {
      if TrimmedEmpty(newFieldName) {
        return NotRequested;
      }
      var draft := DraftFor(newFieldName, newFieldType);
      var result := ctx.AddCustomField(resp);
      match result {
        case NoReply =>
          outcome := Stopped(draft);
        case Succeeded(_) =>
          formData := formData[draft.id := ""];
          newFieldName := "";
          newFieldType := TextInput;
          outcome := Requested(draft);
        case Failed(_) =>
          outcome := Requested(draft);
      }
    }

    /** `handleRemoveCustomField`: asks the client state to remove the
        definition and then drops the value from the form whatever the
        answer. */
    method HandleRemoveCustomField(ctx: ApplicantProvider, fieldId: string, resp: Response<FieldDef>)
      requires ctx as object != this
      modifies this, ctx
      ensures formData == old(formData) - {fieldId}
      ensures ctx.customFields == if resp.Ok? then WithoutFieldId(old(ctx.customFields), fieldId) else old(ctx.customFields)
      ensures ctx.applicants == old(ctx.applicants)
      ensures documents == old(documents) && newFieldName == old(newFieldName)
      ensures newFieldType == old(newFieldType) && showSuccess == old(showSuccess)
      ensures isSubmitting == old(isSubmitting) && submitError == old(submitError)
    {
      var _ := ctx.RemoveCustomField(fieldId, resp);
      formData := formData - {fieldId};
    }

    /** `handleSubmit`: sends the current values; on success resets every
        field (custom ones included) and every document slot and shows the
        success note; otherwise keeps the input and shows the error, with
        a fallback text for an empty message and a generic text when the
        result is missing. Submitting is over in every case. */
    method HandleSubmit(ctx: ApplicantProvider, resp: Response<Applicant>) returns (sent: map<string, string>)
      requires ctx as object != this
      modifies this, ctx
      ensures sent == old(formData)
      ensures !isSubmitting && ctx.customFields == old(ctx.customFields)
      ensures newFieldName == old(newFieldName) && newFieldType == old(newFieldType)
      ensures match resp
        case Ok(d) =>
          && ctx.applicants == old(ctx.applicants) + [d]
          && formData == BlankForm(ctx.customFields) && documents == NoDocuments()
          && showSuccess && submitError == None
        case Declined(_) =>
          && ctx.applicants == old(ctx.applicants)
          && formData == old(formData) && documents == old(documents) && showSuccess == old(showSuccess)
          && submitError == Some("An unexpected error occurred")
        case Thrown(m) =>
          && ctx.applicants == old(ctx.applicants)
          && formData == old(formData) && documents == old(documents) && showSuccess == old(showSuccess)
          && submitError == Some(OrElse(m, "Failed to save applicant"))
    {
      sent := formData;
      isSubmitting := true;
      submitError := None;
      var result := ctx.AddApplicant(resp);
      match result {
        case Succeeded(_) =>
          formData := BlankForm(ctx.customFields);
          documents := NoDocuments();
          showSuccess := true;
        case Failed(e) =>
          submitError := Some(OrElse(e, "Failed to save applicant"));
        case NoReply =>
          submitError := Some("An unexpected error occurred");
      }
      isSubmitting := false;
    }
  }

  /** After a successful submit every field the form shows, standard or
      custom, is empty again. */
  lemma ResetClearsEveryField(fields: seq<FieldDef>, f: FieldDef, key: string)
    requires f in fields && (key in StandardKeys || key == f.id)
    ensures key in BlankForm(fields) && BlankForm(fields)[key] == ""
  {
    BlankFormSpec(fields);
    var i :| 0 <= i < |fields| && fields[i] == f;
    assert f.id in FieldIds(fields);
  }
}
