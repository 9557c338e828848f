/** The client-side state container: the applicant list, the custom-field
    definitions, a loading flag and an error message, with one operation per
    persistence call. Each operation receives what the transport produced
    (`Response`), updates its lists only on success, and answers the caller
    with a `Reply`. The last part wires the container to the mock store and
    shows when the two stay in step. */
module Context {
  import opened Optional
  import opened Text
  import opened Records
  import opened Service

  /** The error `fetchInitialData` records. `Promise.all` rejects with the
      first rejection to settle; the custom-field request settles first
      (500 ms against 800 ms), so when both fail its message wins. */
  function FetchError(apps: Response<seq<Applicant>>, fields: Response<seq<FieldDef>>): (e: Option<string>)
    ensures e == None <==> !apps.Thrown? && !fields.Thrown?
    ensures e.Some? ==> e.value != ""
    ensures fields.Thrown? ==> e == Some(OrElse(fields.message, "Failed to fetch data"))
    ensures apps.Thrown? && !fields.Thrown? ==> e == Some(OrElse(apps.message, "Failed to fetch data"))
  {
    if fields.Thrown? then Some(OrElse(fields.message, "Failed to fetch data"))
    else if apps.Thrown? then Some(OrElse(apps.message, "Failed to fetch data"))
    else None
  }

  class ApplicantProvider {
    var applicants: seq<Applicant>
    var customFields: seq<FieldDef>
    var loading: bool
    var error: Option<string>

    /** The initial state: empty lists, loading, no error. */
    constructor ()
      ensures applicants == [] && customFields == [] && loading && error == None
    {
      applicants := [];
      customFields := [];
      loading := true;
      error := None;
    }

    /** `fetchInitialData`: both lists are requested together; a thrown
        error leaves both lists alone and records a message, a successful
        answer replaces its list, and loading ends in every case. */
    method FetchInitialData(apps: Response<seq<Applicant>>, fields: Response<seq<FieldDef>>)
      modifies this
      ensures !loading
      ensures error == FetchError(apps, fields)
      ensures applicants == (if error == None && apps.Ok? then apps.data else old(applicants))
      ensures customFields == (if error == None && fields.Ok? then fields.data else old(customFields))
    {
      loading := true;
      error := None;
      var failure := FetchError(apps, fields);
      if failure.Some? {
        error := failure;
      } else {
        if apps.Ok? {
          applicants := apps.data;
        }
        if fields.Ok? {
          customFields := fields.data;
        }
      }
      loading := false;
    }

    /** `addApplicant`: appends the stored record on success. */
    method AddApplicant(resp: Response<Applicant>) returns (r: Reply<Applicant>)
      modifies this
      ensures customFields == old(customFields) && loading == old(loading) && error == old(error)
      ensures match resp
        case Ok(d) => r == Succeeded(d) && applicants == old(applicants) + [d]
        case Declined(_) => r == NoReply && applicants == old(applicants)
        case Thrown(m) => r == Failed(m) && applicants == old(applicants)
    {
      match resp
      case Ok(d) =>
        applicants := applicants + [d];
        r := Succeeded(d);
      case Declined(_) =>
        r := NoReply;
      case Thrown(m) =>
        r := Failed(m);
    }

    /** `deleteApplicant`: drops every record with that id on success. */
    method DeleteApplicant(id: nat, resp: Response<Applicant>) returns (r: Reply<()>)
      modifies this
      ensures customFields == old(customFields) && loading == old(loading) && error == old(error)
      ensures match resp
        case Ok(_) => r == Succeeded(()) && applicants == WithoutId(old(applicants), id)
        case Declined(_) => r == NoReply && applicants == old(applicants)
        case Thrown(m) => r == Failed(m) && applicants == old(applicants)
    {
      match resp
      case Ok(_) =>
        applicants := WithoutId(applicants, id);
        r := Succeeded(());
      case Declined(_) =>
        r := NoReply;
      case Thrown(m) =>
        r := Failed(m);
    }

    /** `updateApplicant`: puts the stored record in place of every record
        with that id on success. */
    method UpdateApplicant(id: nat, resp: Response<Applicant>) returns (r: Reply<Applicant>)
      modifies this
      ensures customFields == old(customFields) && loading == old(loading) && error == old(error)
      ensures match resp
        case Ok(d) => r == Succeeded(d) && applicants == ReplaceId(old(applicants), id, d)
        case Declined(_) => r == NoReply && applicants == old(applicants)
        case Thrown(m) => r == Failed(m) && applicants == old(applicants)
    {
      match resp
      case Ok(d) =>
        applicants := ReplaceId(applicants, id, d);
        r := Succeeded(d);
      case Declined(_) =>
        r := NoReply;
      case Thrown(m) =>
        r := Failed(m);
    }

    /** `addCustomField`: appends the stored definition on success. */
    method AddCustomField(resp: Response<FieldDef>) returns (r: Reply<FieldDef>)
      modifies this
      ensures applicants == old(applicants) && loading == old(loading) && error == old(error)
      ensures match resp
        case Ok(d) => r == Succeeded(d) && customFields == old(customFields) + [d]
        case Declined(_) => r == NoReply && customFields == old(customFields)
        case Thrown(m) => r == Failed(m) && customFields == old(customFields)
    {
      match resp
      case Ok(d) =>
        customFields := customFields + [d];
        r := Succeeded(d);
      case Declined(_) =>
        r := NoReply;
      case Thrown(m) =>
        r := Failed(m);
    }

    /** `removeCustomField`: drops every definition with that id on
        success. */
    method RemoveCustomField(fieldId: string, resp: Response<FieldDef>) returns (r: Reply<()>)
      modifies this
      ensures applicants == old(applicants) && loading == old(loading) && error == old(error)
      ensures match resp
        case Ok(_) => r == Succeeded(()) && customFields == WithoutFieldId(old(customFields), fieldId)
        case Declined(_) => r == NoReply && customFields == old(customFields)
        case Thrown(m) => r == Failed(m) && customFields == old(customFields)
    {
      match resp
      case Ok(_) =>
        customFields := WithoutFieldId(customFields, fieldId);
        r := Succeeded(());
      case Declined(_) =>
        r := NoReply;
      case Thrown(m) =>
        r := Failed(m);
    }

    /** `refreshApplicants`: replaces the list on success, records the bare
        message of a thrown error (with no fallback text and without
        clearing an earlier error otherwise), and ends loading. */
    method RefreshApplicants(resp: Response<seq<Applicant>>)
      modifies this
      ensures !loading && customFields == old(customFields)
      ensures applicants == (if resp.Ok? then resp.data else old(applicants))
      ensures error == (if resp.Thrown? then Some(resp.message) else old(error))
    {
      loading := true;
      match resp {
        case Ok(d) =>
          applicants := d;
        case Declined(_) =>
        case Thrown(m) =>
          error := Some(m);
      }
      loading := false;
    }
  }

  // ---------------------------------------------------------------------
  // The container's list updates against the store's
  // ---------------------------------------------------------------------

  /** With unique ids, filtering out an id the store found removes exactly
      the record the store splices out. */
  lemma {:induction false} WithoutIdIsSplice(s: seq<Applicant>, id: nat)
    requires UniqueIds(s) && IndexOfId(s, id) >= 0
    ensures var i := IndexOfId(s, id);
      WithoutId(s, id) == s[..i] + s[i + 1..]
  {
    var i := IndexOfId(s, id);
    var p, q := s[..i], s[i + 1..];
    assert s == p + [s[i]] + q;
    forall k | 0 <= k < |p| ensures p[k].id != id {
      assert p[k] == s[k];
    }
    forall k | 0 <= k < |q| ensures q[k].id != id {
      assert q[k] == s[i + 1 + k];
    }
    WithoutIdSplit(p, s[i], q, id);
  }

  /** Filtering out the one record that carries the id removes just that
      record. */
  lemma {:induction false} WithoutIdSplit(p: seq<Applicant>, x: Applicant, q: seq<Applicant>, id: nat)
    requires !HasId(p, id) && !HasId(q, id) && x.id == id
    ensures WithoutId(p + [x] + q, id) == p + q
  {
    assert WithoutId([x], id) == [] by {
      assert [x][1..] == [];
    }
    calc {
      WithoutId(p + [x] + q, id);
      { WithoutIdAppend(p + [x], q, id); }
      WithoutId(p + [x], id) + WithoutId(q, id);
      { WithoutIdAppend(p, [x], id); }
      WithoutId(p, id) + WithoutId([x], id) + WithoutId(q, id);
      { WithoutAbsentId(p, id); WithoutAbsentId(q, id); }
      p + [] + q;
      p + q;
    }
  }

  /** With unique ids, replacing by id touches exactly the position the
      store overwrites. */
  lemma ReplaceIdIsUpdate(s: seq<Applicant>, id: nat, rec: Applicant)
    requires UniqueIds(s) && IndexOfId(s, id) >= 0
    ensures ReplaceId(s, id, rec) == s[IndexOfId(s, id) := rec]
  {
  }

  /** With repeated custom-field ids the two sides part ways: the store
      removes only the first definition, the container removes all. */
  lemma DuplicateFieldRemovalDiverges(f: FieldDef)
    ensures var s := [f, f];
      var i := IndexOfFieldId(s, f.id);
      i == 0 && s[..i] + s[i + 1..] == [f] && WithoutFieldId(s, f.id) == []
  {
    var s := [f, f];
    assert s[1..] == [f];
    assert WithoutFieldId([f], f.id) == [] by {
      assert [f][1..] == [];
    }
  }

  /** The container and the store hold the same lists. */
  predicate InStep(ctx: ApplicantProvider, api: ApplicantService)
    reads ctx, api
  {
    ctx.applicants == api.applicants && ctx.customFields == api.customFields
  }

  predicate UniqueFieldIds(s: seq<FieldDef>) {
    forall i, j :: 0 <= i < j < |s| ==> s[i].id != s[j].id
  }

  /** Loading through the store brings the container in step with it. */
  method LoadFromStore(ctx: ApplicantProvider, api: ApplicantService)
    modifies ctx
    ensures InStep(ctx, api) && !ctx.loading && ctx.error == None
  {
    var apps := api.GetApplicants();
    var fields := api.GetCustomFields();
    ctx.FetchInitialData(apps, fields);
  }

  /** `addApplicant` through the store keeps the two in step, and a fresh
      `Date.now()` id keeps ids unique. */
  method AddThroughStore(ctx: ApplicantProvider, api: ApplicantService, data: map<string, string>, now: nat)
      returns (r: Reply<Applicant>)
    requires InStep(ctx, api) && UniqueIds(api.applicants) && !HasId(api.applicants, now)
    modifies ctx, api
    ensures InStep(ctx, api) && UniqueIds(api.applicants)
    ensures r == Succeeded(NewApplicant(data, now))
  {
    var resp := api.CreateApplicant(data, now);
    r := ctx.AddApplicant(resp);
    CreateKeepsIdsUnique(old(api.applicants), data, now);
  }

  /** `deleteApplicant` through the store keeps the two in step; an unknown
      id is reported with the store's message. */
  method DeleteThroughStore(ctx: ApplicantProvider, api: ApplicantService, id: nat) returns (r: Reply<()>)
    requires InStep(ctx, api) && UniqueIds(api.applicants)
    modifies ctx, api
    ensures InStep(ctx, api) && UniqueIds(api.applicants)
    ensures r == if HasId(old(api.applicants), id) then Succeeded(()) else Failed("Applicant not found")
    ensures !HasId(api.applicants, id)
  {
    ghost var before := api.applicants;
    var resp := api.DeleteApplicant(id);
    r := ctx.DeleteApplicant(id, resp);
    var i := IndexOfId(before, id);
    if i >= 0 {
      WithoutIdIsSplice(before, id);
      DeleteKeepsIdsUnique(before, i);
      DeleteTwiceFails(before, id);
    }
  }

  /** `updateApplicant` through the store keeps the two in step when the
      patch keeps the record's id. */
  method UpdateThroughStore(ctx: ApplicantProvider, api: ApplicantService, id: nat, patch: Patch)
      returns (r: Reply<Applicant>)
    requires InStep(ctx, api) && UniqueIds(api.applicants)
    requires patch.id == None || patch.id == Some(id)
    modifies ctx, api
    ensures InStep(ctx, api) && UniqueIds(api.applicants)
    ensures var i := IndexOfId(old(api.applicants), id);
      r == if i < 0 then Failed("Applicant not found") else Succeeded(Merge(old(api.applicants)[i], patch))
  {
    ghost var before := api.applicants;
    var resp := api.UpdateApplicant(id, patch);
    r := ctx.UpdateApplicant(id, resp);
    var i := IndexOfId(before, id);
    if i >= 0 {
      ReplaceIdIsUpdate(before, id, Merge(before[i], patch));
      UpdateKeepsIdsUnique(before, i, patch);
    }
  }

  /** `addCustomField` through the store keeps the two in step. */
  method AddFieldThroughStore(ctx: ApplicantProvider, api: ApplicantService, draft: FieldDraft)
      returns (r: Reply<FieldDef>)
    requires InStep(ctx, api)
    modifies ctx, api
    ensures InStep(ctx, api)
    ensures r.Succeeded? && r.data.caption == draft.caption
  {
    var resp := api.CreateCustomField(draft);
    r := ctx.AddCustomField(resp);
  }

  /** `removeCustomField` through the store keeps the two in step as long
      as custom-field ids are unique. */
  method RemoveFieldThroughStore(ctx: ApplicantProvider, api: ApplicantService, fieldId: string)
      returns (r: Reply<()>)
    requires InStep(ctx, api) && UniqueFieldIds(api.customFields)
    modifies ctx, api
    ensures InStep(ctx, api)
    ensures r == if HasFieldId(old(api.customFields), fieldId) then Succeeded(()) else Failed("Custom field not found")
  {
    ghost var before := api.customFields;
    var resp := api.DeleteCustomField(fieldId);
    r := ctx.RemoveCustomField(fieldId, resp);
    var i := IndexOfFieldId(before, fieldId);
    if i >= 0 {
      WithoutFieldIdIsSplice(before, fieldId);
    }
  }

  lemma {:induction false} WithoutFieldIdIsSplice(s: seq<FieldDef>, id: string)
    requires UniqueFieldIds(s) && IndexOfFieldId(s, id) >= 0
    ensures var i := IndexOfFieldId(s, id);
      WithoutFieldId(s, id) == s[..i] + s[i + 1..]
  {
    var i := IndexOfFieldId(s, id);
    var p, q := s[..i], s[i + 1..];
    assert s == p + [s[i]] + q;
    forall k | 0 <= k < |p| ensures p[k].id != id {
      assert p[k] == s[k];
    }
    forall k | 0 <= k < |q| ensures q[k].id != id {
      assert q[k] == s[i + 1 + k];
    }
    WithoutFieldIdSplit(p, s[i], q, id);
  }

  /** Filtering out the one record that carries the id removes just that
      record. */
  lemma {:induction false} WithoutFieldIdSplit(p: seq<FieldDef>, x: FieldDef, q: seq<FieldDef>, id: string)
    requires !HasFieldId(p, id) && !HasFieldId(q, id) && x.id == id
    ensures WithoutFieldId(p + [x] + q, id) == p + q
  {
    assert WithoutFieldId([x], id) == [] by {
      assert [x][1..] == [];
    }
    calc {
      WithoutFieldId(p + [x] + q, id);
      { WithoutFieldIdAppend(p + [x], q, id); }
      WithoutFieldId(p + [x], id) + WithoutFieldId(q, id);
      { WithoutFieldIdAppend(p, [x], id); }
      WithoutFieldId(p, id) + WithoutFieldId([x], id) + WithoutFieldId(q, id);
      { WithoutAbsentFieldId(p, id); WithoutAbsentFieldId(q, id); }
      p + [] + q;
      p + q;
    }
  }
}
