/** The applicant detail page: the record picked by the route id, which
    fields and sections it shows, the edit session (a working copy of the
    text fields and of the document slots, saved as one patch) and the
    delete button. */
module Detail {
  import opened Optional
  import opened Text
  import opened Dates
  import opened Records
  import opened Context

  /** `applicants.find(app => app.id === id)`. */
  function FindApplicant(s: seq<Applicant>, id: nat): (r: Option<Applicant>)
    ensures r.Some? <==> HasId(s, id)
    ensures r.Some? ==> r.value in s && r.value.id == id
    ensures r.Some? ==> exists i :: 0 <= i < |s| && s[i] == r.value && forall j :: 0 <= j < i ==> s[j].id != id
  {
    var i := IndexOfId(s, id);
    if i < 0 then None else Some(s[i])
  }

  // ---------------------------------------------------------------------
  // What the page shows
  // ---------------------------------------------------------------------

  /** `applicant[id]` is truthy: present and not the empty string. */
  predicate HasText(a: Applicant, fieldId: string) {
    fieldId in a.fields && a.fields[fieldId] != ""
  }

  /** A field row is rendered in edit mode, or when it has a value. */
  predicate FieldShown(a: Applicant, fieldId: string, isEditing: bool) {
    isEditing || HasText(a, fieldId)
  }

  /** `section.fields.some(field => applicant[field.id])`. */
  predicate SomeHasText(a: Applicant, fieldIds: seq<string>) {
    fieldIds != [] && (HasText(a, fieldIds[0]) || SomeHasText(a, fieldIds[1..]))
  }

  /** A section is rendered in edit mode, or when one of its fields has a
      value. */
  predicate SectionShown(a: Applicant, fieldIds: seq<string>, isEditing: bool) {
    isEditing || SomeHasText(a, fieldIds)
  }

  /** Outside edit mode a section is rendered exactly when at least one of
      its field rows is, so no section header ever stands alone. */
  lemma {:induction false} SectionShownIffRowShown(a: Applicant, fieldIds: seq<string>)
    ensures SectionShown(a, fieldIds, false) <==>
      exists i :: 0 <= i < |fieldIds| && FieldShown(a, fieldIds[i], false)
  {
    if fieldIds != [] {
      SectionShownIffRowShown(a, fieldIds[1..]);
      if SomeHasText(a, fieldIds[1..]) {
        var j :| 0 <= j < |fieldIds[1..]| && FieldShown(a, fieldIds[1..][j], false);
        assert fieldIds[j + 1] == fieldIds[1..][j];
      }
      forall i | 1 <= i < |fieldIds| && FieldShown(a, fieldIds[i], false)
        ensures SomeHasText(a, fieldIds[1..])
      {
        assert fieldIds[1..][i - 1] == fieldIds[i];
      }
    }
  }

  /** The documents card is rendered only for a record that has a
      `documents` object. */
  predicate DocumentsCardShown(a: Applicant) {
    a.documents.Some?
  }

  /** A record created through the store has no `documents` object, so its
      page never shows the documents card, and with it the upload buttons. */
  lemma NewRecordHasNoDocumentsCard(data: map<string, string>, now: nat)
    ensures !DocumentsCardShown(NewApplicant(data, now))
  {
  }

  /** `editDocuments[key] || applicant.documents[key]`: the working copy's
      document, else the saved one. A cleared (`null`) slot in the working
      copy is falsy and so falls through to the saved document. */
  function CurrentDocument(edit: DocumentSlots, saved: DocumentSlots, key: string): (r: Option<Document>)
    ensures r.Some? <==> (key in edit && edit[key].Some?) || (key in saved && saved[key].Some?)
    ensures key in edit && edit[key].Some? ==> r == edit[key]
  {
    if key in edit && edit[key].Some? then edit[key]
    else if key in saved then saved[key]
    else None
  }

  /** A document slot is rendered in edit mode, or when it has a document. */
  predicate DocumentSlotShown(edit: DocumentSlots, saved: DocumentSlots, key: string, isEditing: bool) {
    isEditing || CurrentDocument(edit, saved, key).Some?
  }

  /** A slot is rendered exactly when editing, or when the working copy or
      the saved record holds a document for it. */
  lemma DocumentSlotShownIff(edit: DocumentSlots, saved: DocumentSlots, key: string, isEditing: bool)
    ensures DocumentSlotShown(edit, saved, key, isEditing)
        <==> isEditing || (key in edit && edit[key].Some?) || (key in saved && saved[key].Some?)
  {
  }

  /** While editing, a document that was deleted from the working copy is
      still the one displayed for its slot, until the edit is saved. */
  lemma DeletedDocumentStillDisplayed(edit: DocumentSlots, saved: DocumentSlots, key: string, d: Document)
    requires key in saved && saved[key] == Some(d)
    ensures CurrentDocument(edit[key := None], saved, key) == Some(d)
  {
  }

  // ---------------------------------------------------------------------
  // Uploaded documents
  // ---------------------------------------------------------------------

  /** `(size / 1024).toFixed(0)`: the size in KB rounded to the nearest
      whole number, halves rounded up. */
  function Kilobytes(bytes: nat): (k: nat)
    ensures 1024 * k <= bytes + 512 < 1024 * k + 1024
  {
    (bytes + 512) / 1024
  }

  /** The size label, e.g. "2 KB". */
  function SizeLabel(bytes: nat): (r: string)
    ensures |r| > 3 && r[|r| - 3..] == " KB" && AllDigits(r[..|r| - 3])
  {
    NatToDecimal(Kilobytes(bytes)) + " KB"
  }

  /** The document stored for a chosen file on the (UTC) day `today`. */
  function UploadedDocument(file: FileHandle, today: Date): Document
    requires Writable(today)
  {
    Document(file.name, SizeLabel(file.sizeBytes), file.mimeType, FormatIsoDate(today), file)
  }

  /** The stored document keeps the file's name, type and handle; its size
      label reads back as the rounded KB count and its upload date reads
      back as the day of the upload. */
  lemma UploadedDocumentReadsBack(file: FileHandle, today: Date)
    requires Writable(today)
    ensures var d := UploadedDocument(file, today);
      && d.name == file.name && d.mimeType == file.mimeType && d.file == file
      && |d.size| > 3 && d.size[|d.size| - 3..] == " KB"
      && AllDigits(d.size[..|d.size| - 3])
      && DecimalValue(d.size[..|d.size| - 3]) == Kilobytes(file.sizeBytes)
      && ParseIsoDate(d.uploadDate) == Some(today)
  {
    var digits := NatToDecimal(Kilobytes(file.sizeBytes));
    var d := UploadedDocument(file, today);
    assert d.size[..|d.size| - 3] == digits;
    NatToDecimalRoundTrip(Kilobytes(file.sizeBytes));
    IsoDateRoundTrip(today);
  }

  /** A saved edit stores exactly the working copy: the edited text fields
      (which started as the record's own, so no key is lost), the edited
      document slots, and the same id. */
  lemma SavedRecordIsWorkingCopy(a: Applicant, edit: map<string, string>, docs: DocumentSlots)
    requires a.fields.Keys <= edit.Keys
    ensures Merge(a, Patch(Some(a.id), edit, Some(docs))) == Applicant(a.id, edit, Some(docs))
  {
    assert a.fields + edit == edit;
  }

  // ---------------------------------------------------------------------
  // The page
  // ---------------------------------------------------------------------

  /** How a delete click ended: the dialog was dismissed, the page moved to
      the list, the failure was shown in an alert, or the handler stopped at
      a missing result (reading `success` of `undefined`). */
  datatype DeleteOutcome = Cancelled | NavigateTo(path: string) | Alerted(message: string) | Stopped

  class DetailPage {
    var isEditing: bool
    var editFormData: map<string, string>
    var editDocuments: DocumentSlots
    var isUpdating: bool
    var updateError: Option<string>
    var isDeleting: bool

    /** The page as it mounts: not editing, empty working copies. */
    constructor ()
      ensures !isEditing && editFormData == map[] && editDocuments == map[]
      ensures !isUpdating && updateError == None && !isDeleting
    {
      isEditing := false;
      editFormData := map[];
      editDocuments := map[];
      isUpdating := false;
      updateError := None;
      isDeleting := false;
    }

    /** `handleEdit`: starts editing from copies of the record's fields and
        documents (none when it has no `documents` object). */
    method HandleEdit(a: Applicant)
      modifies this
      ensures isEditing && updateError == None
      ensures editFormData == a.fields && editDocuments == a.documents.GetOr(map[])
      ensures isUpdating == old(isUpdating) && isDeleting == old(isDeleting)
    {
      editFormData := a.fields;
      editDocuments := a.documents.GetOr(map[]);
      isEditing := true;
      updateError := None;
    }

    /** `handleCancelEdit`: drops the working copies. */
    method HandleCancelEdit()
      modifies this
      ensures !isEditing && editFormData == map[] && editDocuments == map[] && updateError == None
      ensures isUpdating == old(isUpdating) && isDeleting == old(isDeleting)
    {
      isEditing := false;
      editFormData := map[];
      editDocuments := map[];
      updateError := None;
    }

    /** `handleEditChange`: sets one field of the working copy. */
    method HandleEditChange(field: string, value: string)
      modifies this
      ensures editFormData == old(editFormData)[field := value]
      ensures isEditing == old(isEditing) && editDocuments == old(editDocuments)
      ensures isUpdating == old(isUpdating) && updateError == old(updateError) && isDeleting == old(isDeleting)
    {
      editFormData := editFormData[field := value];
    }

    /** `handleDocumentUpload`: puts the first chosen file, described as a
        document uploaded today, in the working copy's slot; an empty
        selection changes nothing. */
    method HandleDocumentUpload(docType: string, file: Option<FileHandle>, today: Date)
      requires Writable(today)
      modifies this
      ensures editDocuments == if file.Some? then old(editDocuments)[docType := Some(UploadedDocument(file.value, today))] else old(editDocuments)
      ensures isEditing == old(isEditing) && editFormData == old(editFormData)
      ensures isUpdating == old(isUpdating) && updateError == old(updateError) && isDeleting == old(isDeleting)
    {
      if file.Some? {
        editDocuments := editDocuments[docType := Some(UploadedDocument(file.value, today))];
      }
    }

    /** `handleDeleteDocument`: after confirmation, clears the working
        copy's slot. */
    method HandleDeleteDocument(docType: string, confirmed: bool)
      modifies this
      ensures editDocuments == if confirmed then old(editDocuments)[docType := None] else old(editDocuments)
      ensures isEditing == old(isEditing) && editFormData == old(editFormData)
      ensures isUpdating == old(isUpdating) && updateError == old(updateError) && isDeleting == old(isDeleting)
    {
      if confirmed {
        editDocuments := editDocuments[docType := None];
      }
    }

    /** `handleSaveEdit`: sends the working copy with the documents as one
        patch; on success leaves edit mode and drops the working copies,
        otherwise keeps them and shows the error, with a fallback text for an
        empty message and a generic text when the result is missing.
        Updating is over in every case. */
    method HandleSaveEdit(ctx: ApplicantProvider, a: Applicant, resp: Response<Applicant>) returns (sent: Patch)
      requires ctx as object != this
      modifies this, ctx
      ensures sent == Patch(Some(a.id), old(editFormData), Some(old(editDocuments)))
      ensures !isUpdating && isDeleting == old(isDeleting)
      ensures ctx.customFields == old(ctx.customFields)
      ensures match resp
        case Ok(d) =>
          && ctx.applicants == ReplaceId(old(ctx.applicants), a.id, d)
          && !isEditing && editFormData == map[] && editDocuments == map[] && updateError == None
        case Declined(_) =>
          && ctx.applicants == old(ctx.applicants)
          && isEditing == old(isEditing) && editFormData == old(editFormData) && editDocuments == old(editDocuments)
          && updateError == Some("An unexpected error occurred")
        case Thrown(m) =>
          && ctx.applicants == old(ctx.applicants)
          && isEditing == old(isEditing) && editFormData == old(editFormData) && editDocuments == old(editDocuments)
          && updateError == Some(OrElse(m, "Failed to update applicant"))
    {
      isUpdating := true;
      updateError := None;
      sent := Patch(Some(a.id), editFormData, Some(editDocuments));
      var result := ctx.UpdateApplicant(a.id, resp);
      match result {
        case Succeeded(_) =>
          isEditing := false;
          editFormData := map[];
          editDocuments := map[];
        case Failed(e) =>
          updateError := Some(OrElse(e, "Failed to update applicant"));
        case NoReply =>
          updateError := Some("An unexpected error occurred");
      }
      isUpdating := false;
    }

    /** `handleDelete`: after confirmation, marks the page as deleting and
        asks the client state to delete; success moves to the list, failure
        alerts and clears the mark, and a missing result stops the handler
        with the mark still set. */
    method HandleDelete(ctx: ApplicantProvider, a: Applicant, confirmed: bool, resp: Response<Applicant>)
        returns (outcome: DeleteOutcome)
      requires ctx as object != this
      modifies this, ctx
      ensures !confirmed ==> outcome == Cancelled && unchanged(this) && unchanged(ctx)
      ensures confirmed ==> ctx.customFields == old(ctx.customFields)
      ensures confirmed ==> match resp
        case Ok(_) =>
          outcome == NavigateTo("/applicants") && isDeleting
          && ctx.applicants == WithoutId(old(ctx.applicants), a.id)
        case Declined(_) =>
          outcome == Stopped && isDeleting && ctx.applicants == old(ctx.applicants)
        case Thrown(m) =>
          outcome == Alerted("Failed to delete applicant: " + m) && !isDeleting
          && ctx.applicants == old(ctx.applicants)
      ensures isEditing == old(isEditing) && editFormData == old(editFormData) && editDocuments == old(editDocuments)
      ensures isUpdating == old(isUpdating) && updateError == old(updateError)
    {
      if !confirmed {
        return Cancelled;
      }
      isDeleting := true;
      var result := ctx.DeleteApplicant(a.id, resp);
      match result {
        case Succeeded(_) =>
          outcome := NavigateTo("/applicants");
        case Failed(e) =>
          isDeleting := false;
          outcome := Alerted("Failed to delete applicant: " + e);
        case NoReply =>
          outcome := Stopped;
      }
    }
  }
}
