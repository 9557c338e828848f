/** The earlier, store-less state container: two lists held in component
    state and four updaters that never fail. */
module LegacyContext {
  import opened Records

  class LegacyProvider {
    var applicants: seq<Applicant>
    var customFields: seq<FieldDef>

    /** Both lists start empty. */
    constructor ()
      ensures applicants == [] && customFields == []
    {
      applicants := [];
      customFields := [];
    }

    /** `addApplicant`: appends the input with the id `now` (the value of
        `Date.now()`), which overrides any id the input carries. */
    method AddApplicant(data: map<string, string>, now: nat)
      modifies this
      ensures applicants == old(applicants) + [NewApplicant(data, now)]
      ensures customFields == old(customFields)
    {
      applicants := applicants + [NewApplicant(data, now)];
    }

    /** `deleteApplicant`: drops every record with that id; an unknown id
        changes nothing. */
    method DeleteApplicant(id: nat)
      modifies this
      ensures applicants == WithoutId(old(applicants), id)
      ensures !HasId(old(applicants), id) ==> applicants == old(applicants)
      ensures customFields == old(customFields)
    {
      if !HasId(applicants, id) {
        WithoutAbsentId(applicants, id);
      }
      applicants := WithoutId(applicants, id);
    }

    /** `addCustomField`: appends the definition exactly as given. */
    method AddCustomField(field: FieldDef)
      modifies this
      ensures customFields == old(customFields) + [field]
      ensures applicants == old(applicants)
    {
      customFields := customFields + [field];
    }

    /** `removeCustomField`: drops every definition with that id; an unknown
        id changes nothing. */
    method RemoveCustomField(fieldId: string)
      modifies this
      ensures customFields == WithoutFieldId(old(customFields), fieldId)
      ensures !HasFieldId(old(customFields), fieldId) ==> customFields == old(customFields)
      ensures applicants == old(applicants)
    {
      if !HasFieldId(customFields, fieldId) {
        WithoutAbsentFieldId(customFields, fieldId);
      }
      customFields := WithoutFieldId(customFields, fieldId);
    }
  }

  /** Deleting the record just added under a fresh `Date.now()` id gives the
      list back unchanged. */
  lemma {:induction false} DeleteUndoesAdd(s: seq<Applicant>, data: map<string, string>, now: nat)
    requires !HasId(s, now)
    ensures WithoutId(s + [NewApplicant(data, now)], now) == s
  {
    var x := NewApplicant(data, now);
    WithoutIdAppend(s, [x], now);
    WithoutAbsentId(s, now);
    assert WithoutId([x], now) == [] by {
      assert [x][1..] == [];
    }
  }

  /** Removing the definition just added under an unused id gives the list
      back unchanged. */
  lemma {:induction false} RemoveUndoesAdd(s: seq<FieldDef>, field: FieldDef)
    requires !HasFieldId(s, field.id)
    ensures WithoutFieldId(s + [field], field.id) == s
  {
    WithoutFieldIdAppend(s, [field], field.id);
    WithoutAbsentFieldId(s, field.id);
    assert WithoutFieldId([field], field.id) == [] by {
      assert [field][1..] == [];
    }
  }

  /** Deleting an id a second time changes nothing. */
  lemma {:induction false} DeleteIsIdempotent(s: seq<Applicant>, id: nat)
    ensures WithoutId(WithoutId(s, id), id) == WithoutId(s, id)
  {
    var r := WithoutId(s, id);
    forall i | 0 <= i < |r| ensures r[i].id != id {
      assert r[i] in r;
    }
    WithoutAbsentId(r, id);
  }

  /** Removing a field id a second time changes nothing. */
  lemma {:induction false} RemoveIsIdempotent(s: seq<FieldDef>, id: string)
    ensures WithoutFieldId(WithoutFieldId(s, id), id) == WithoutFieldId(s, id)
  {
    var r := WithoutFieldId(s, id);
    forall i | 0 <= i < |r| ensures r[i].id != id {
      assert r[i] in r;
    }
    WithoutAbsentFieldId(r, id);
  }
}
