/** The mock persistence service: two module-level arrays, the applicants
    and the custom-field definitions, that the API functions grow with
    `push`, overwrite by index and shrink with `splice` after a `findIndex`
    scan. A thrown `Error` is the `Thrown` response. */
module Service {
  import opened Optional
  import opened Text
  import opened Records

  class ApplicantService {
    var applicants: seq<Applicant>
    var customFields: seq<FieldDef>

    /** The store as the module loads: the seed applicants and no custom
        fields. */
    constructor (seed: seq<Applicant>)
      ensures applicants == seed && customFields == []
    {
      applicants := seed;
      customFields := [];
    }

    /** `getApplicants`: a copy of the list, in order. */
    method GetApplicants() returns (r: Response<seq<Applicant>>)
      ensures r.Ok? && r.data == applicants
    {
      r := Ok(applicants);
    }

    /** `createApplicant`: appends the input with the id `now` (the value of
        `Date.now()`), which overrides any id the input carries. */
    method CreateApplicant(data: map<string, string>, now: nat) returns (r: Response<Applicant>)
      modifies this
      ensures r.Ok?
      ensures r.data.id == now && r.data.fields == data - {"id"} && r.data.documents == None
      ensures applicants == old(applicants) + [r.data]
      ensures customFields == old(customFields)
    {
      var created := NewApplicant(data, now);
      applicants := applicants + [created];
      r := Ok(created);
    }

    /** `updateApplicant`: shallow-merges the patch into the first record
        with that id, or throws "Applicant not found". */
    method UpdateApplicant(id: nat, patch: Patch) returns (r: Response<Applicant>)
      modifies this
      ensures customFields == old(customFields)
      ensures var i := IndexOfId(old(applicants), id);
        if i < 0 then
          r == Thrown("Applicant not found") && applicants == old(applicants)
        else
          r == Ok(Merge(old(applicants)[i], patch))
          && applicants == old(applicants)[i := Merge(old(applicants)[i], patch)]
    {
      var index := IndexOfId(applicants, id);
      if index == -1 {
        r := Thrown("Applicant not found");
        return;
      }
      applicants := applicants[index := Merge(applicants[index], patch)];
      r := Ok(applicants[index]);
    }

    /** `deleteApplicant`: splices out the first record with that id and
        returns it, or throws "Applicant not found". */
    method DeleteApplicant(id: nat) returns (r: Response<Applicant>)
      modifies this
      ensures customFields == old(customFields)
      ensures var i := IndexOfId(old(applicants), id);
        if i < 0 then
          r == Thrown("Applicant not found") && applicants == old(applicants)
        else
          r == Ok(old(applicants)[i])
          && applicants == old(applicants)[..i] + old(applicants)[i + 1..]
    {
      var index := IndexOfId(applicants, id);
      if index == -1 {
        r := Thrown("Applicant not found");
        return;
      }
      var deleted := applicants[index];
      applicants := applicants[..index] + applicants[index + 1..];
      r := Ok(deleted);
    }

    /** `getCustomFields`: a copy of the definitions, in order. */
    method GetCustomFields() returns (r: Response<seq<FieldDef>>)
      ensures r.Ok? && r.data == customFields
    {
      r := Ok(customFields);
    }

    /** `createCustomField`: appends the definition, its id being the given
        one or else derived from the label. No duplicate check is made. */
    method CreateCustomField(draft: FieldDraft) returns (r: Response<FieldDef>)
      modifies this
      ensures r.Ok?
      ensures r.data.id == (if draft.id != "" then draft.id else DeriveFieldId(draft.caption))
      ensures r.data.caption == draft.caption && r.data.inputType == draft.inputType
      ensures customFields == old(customFields) + [r.data]
      ensures applicants == old(applicants)
    {
      var fieldId := if draft.id != "" then draft.id else DeriveFieldId(draft.caption);
      var created := FieldDef(fieldId, draft.caption, draft.inputType);
      customFields := customFields + [created];
      r := Ok(created);
    }

    /** `deleteCustomField`: splices out the first definition with that id
        and returns it, or throws "Custom field not found". Applicant records
        keep their values under that key. */
    method DeleteCustomField(fieldId: string) returns (r: Response<FieldDef>)
      modifies this
      ensures applicants == old(applicants)
      ensures var i := IndexOfFieldId(old(customFields), fieldId);
        if i < 0 then
          r == Thrown("Custom field not found") && customFields == old(customFields)
        else
          r == Ok(old(customFields)[i])
          && customFields == old(customFields)[..i] + old(customFields)[i + 1..]
    {
      var index := IndexOfFieldId(customFields, fieldId);
      if index == -1 {
        r := Thrown("Custom field not found");
        return;
      }
      var deleted := customFields[index];
      customFields := customFields[..index] + customFields[index + 1..];
      r := Ok(deleted);
    }
  }

  // ---------------------------------------------------------------------
  // Properties of the store operations across calls
  // ---------------------------------------------------------------------

  /** A second identical update finds the same record and changes nothing,
      provided the patch keeps the record's id. */
  lemma UpdateTwiceIsUpdateOnce(s: seq<Applicant>, id: nat, patch: Patch)
    requires IndexOfId(s, id) >= 0
    requires patch.id == None || patch.id == Some(id)
    ensures var i := IndexOfId(s, id);
      var once := s[i := Merge(s[i], patch)];
      IndexOfId(once, id) == i && once[i := Merge(once[i], patch)] == once
  {
    var i := IndexOfId(s, id);
    var once := s[i := Merge(s[i], patch)];
    assert once[i].id == id;
    assert forall j :: 0 <= j < i ==> once[j] == s[j];
    MergeIdempotent(s[i], patch);
  }

  /** With unique ids, deleting an id twice fails the second time. */
  lemma DeleteTwiceFails(s: seq<Applicant>, id: nat)
    requires UniqueIds(s)
    requires IndexOfId(s, id) >= 0
    ensures var i := IndexOfId(s, id);
      IndexOfId(s[..i] + s[i + 1..], id) == -1
  {
    var i := IndexOfId(s, id);
    var rest := s[..i] + s[i + 1..];
    forall j | 0 <= j < |rest| ensures rest[j].id != id {
      if j < i {
        assert rest[j] == s[j];
      } else {
        assert rest[j] == s[j + 1];
      }
    }
  }

  /** Deleting keeps ids unique. */
  lemma DeleteKeepsIdsUnique(s: seq<Applicant>, i: nat)
    requires UniqueIds(s) && i < |s|
    ensures UniqueIds(s[..i] + s[i + 1..])
  {
    var rest := s[..i] + s[i + 1..];
    assert forall j :: 0 <= j < |rest| ==> rest[j] == if j < i then s[j] else s[j + 1];
  }

  /** A `Date.now()` id that no record has keeps ids unique. */
  lemma CreateKeepsIdsUnique(s: seq<Applicant>, data: map<string, string>, now: nat)
    requires UniqueIds(s) && !HasId(s, now)
    ensures UniqueIds(s + [NewApplicant(data, now)])
  {
  }

  /** An update whose patch keeps the id keeps ids unique. */
  lemma UpdateKeepsIdsUnique(s: seq<Applicant>, i: nat, patch: Patch)
    requires UniqueIds(s) && i < |s|
    requires patch.id == None || patch.id == Some(s[i].id)
    ensures UniqueIds(s[i := Merge(s[i], patch)])
  {
  }
}
