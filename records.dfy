/** The applicant record, custom-field definitions, the documents attached in
    the edit view, the answers of the persistence transport, and the list
    updaters (`find`, `findIndex`, `filter`, `map`) that the store and the
    client state apply to them. */
module Records {
  import opened Optional

  /** The input types a custom field can be given. */
  datatype InputType = TextInput | EmailInput | TelInput | NumberInput | DateInput | TextareaInput

  /** A browser file handle: the only parts of a `File` the model reads. */
  datatype FileHandle = FileHandle(name: string, sizeBytes: nat, mimeType: string)

  /** A document as the edit view stores it: name, size label, type, upload
      day and the file itself. */
  datatype Document = Document(name: string, size: string, mimeType: string, uploadDate: string, file: FileHandle)

  /** Document category (`resume`, `visa_copy`, ...) to document; `None` is a
      slot that was cleared (`null`). */
  type DocumentSlots = map<string, Option<Document>>

  /** An applicant: its numeric id, its text fields (standard and custom
      keys alike) and, once saved from the edit view, its documents. */
  datatype Applicant = Applicant(id: nat, fields: map<string, string>, documents: Option<DocumentSlots>)

  /** The object handed to `updateApplicant`: text fields, and optionally an
      `id` and a `documents` property. */
  datatype Patch = Patch(id: Option<nat>, fields: map<string, string>, documents: Option<DocumentSlots>)

  /** A custom field: its id, its display label (the `label` property) and its
      input type. */
  datatype FieldDef = FieldDef(id: string, caption: string, inputType: InputType)

  /** The object handed to `createCustomField`; an empty `id` stands for an
      absent (falsy) one. */
  datatype FieldDraft = FieldDraft(id: string, caption: string, inputType: InputType)

  /** What a call into the persistence transport produces: a response with
      `success: true` and its data, a response with `success: false`, or a
      thrown error with its message. */
  datatype Response<T> = Ok(data: T) | Declined(message: string) | Thrown(message: string)

  /** What the client-state operations return: `{success: true, data}`,
      `{success: false, error}`, or `undefined` when they fall through. */
  datatype Reply<T> = Succeeded(data: T) | Failed(error: string) | NoReply

  // ---------------------------------------------------------------------
  // Creating and merging records
  // ---------------------------------------------------------------------

  /** `{...data, id: now}`: the new id overrides any `id` key of the input. */
  function NewApplicant(data: map<string, string>, now: nat): (a: Applicant)
    ensures a.id == now && a.documents == None
    ensures forall k :: k in a.fields <==> k in data && k != "id"
    ensures forall k :: k in a.fields ==> a.fields[k] == data[k]
  {
    Applicant(now, data - {"id"}, None)
  }

  /** `{...old, ...patch}`: supplied properties overwrite, the others stay. */
  function Merge(prior: Applicant, patch: Patch): Applicant {
    Applicant(
      patch.id.GetOr(prior.id),
      prior.fields + patch.fields,
      if patch.documents.Some? then patch.documents else prior.documents)
  }

  /** The shallow merge keeps every key of the old record, overwrites every
      supplied key, adds no other key, and takes `id` and `documents` from the
      patch exactly when it supplies them. */
  lemma MergeSpec(prior: Applicant, patch: Patch)
    ensures var r := Merge(prior, patch);
      && r.fields.Keys == prior.fields.Keys + patch.fields.Keys
      && (forall k :: k in patch.fields ==> r.fields[k] == patch.fields[k])
      && (forall k :: k in prior.fields && k !in patch.fields ==> r.fields[k] == prior.fields[k])
      && r.id == (if patch.id.Some? then patch.id.value else prior.id)
      && r.documents == (if patch.documents.Some? then patch.documents else prior.documents)
  {
  }

  /** Applying the same patch twice is applying it once. */
  lemma MergeIdempotent(prior: Applicant, patch: Patch)
    ensures Merge(Merge(prior, patch), patch) == Merge(prior, patch)
  {
    var once := Merge(prior, patch);
    assert once.fields + patch.fields == once.fields;
  }

  // ---------------------------------------------------------------------
  // findIndex, filter and map over the applicant list
  // ---------------------------------------------------------------------

  predicate UniqueIds(s: seq<Applicant>) {
    forall i, j :: 0 <= i < j < |s| ==> s[i].id != s[j].id
  }

  predicate HasId(s: seq<Applicant>, id: nat) {
    exists i :: 0 <= i < |s| && s[i].id == id
  }

  /** `findIndex(app => app.id === id)`: the first position holding `id`, or
      -1 when there is none. */
  function IndexOfId(s: seq<Applicant>, id: nat): (r: int)
    ensures -1 <= r < |s|
    ensures r == -1 <==> !HasId(s, id)
    ensures r >= 0 ==> s[r].id == id && forall i :: 0 <= i < r ==> s[i].id != id
  {
    if s == [] then -1
    else if s[0].id == id then 0
    else
      var r := IndexOfId(s[1..], id);
      if r == -1 then -1 else r + 1
  }

  /** `filter(app => app.id !== id)`. */
  function WithoutId(s: seq<Applicant>, id: nat): (r: seq<Applicant>)
    ensures |r| <= |s|
    ensures forall a :: a in r <==> a in s && a.id != id
  {
    if s == [] then []
    else (if s[0].id == id then [] else [s[0]]) + WithoutId(s[1..], id)
  }

  /** `map(app => app.id === id ? rec : app)`. */
  function ReplaceId(s: seq<Applicant>, id: nat, rec: Applicant): (r: seq<Applicant>)
    ensures |r| == |s|
    ensures forall i :: 0 <= i < |s| ==> r[i] == if s[i].id == id then rec else s[i]
  {
    if s == [] then []
    else [if s[0].id == id then rec else s[0]] + ReplaceId(s[1..], id, rec)
  }

  /** Filtering distributes over concatenation, so the kept records keep
      their relative order. */
  lemma {:induction false} WithoutIdAppend(a: seq<Applicant>, b: seq<Applicant>, id: nat)
    ensures WithoutId(a + b, id) == WithoutId(a, id) + WithoutId(b, id)
  {
    if a != [] {
      assert (a + b)[1..] == a[1..] + b;
      WithoutIdAppend(a[1..], b, id);
    } else {
      assert a + b == b;
    }
  }

  /** Filtering out an id nobody has changes nothing. */
  lemma {:induction false} WithoutAbsentId(s: seq<Applicant>, id: nat)
    requires !HasId(s, id)
    ensures WithoutId(s, id) == s
  {
    if s != [] {
      WithoutAbsentId(s[1..], id);
      assert s == [s[0]] + s[1..];
    }
  }

  // ---------------------------------------------------------------------
  // The same over custom-field definitions
  // ---------------------------------------------------------------------

  predicate HasFieldId(s: seq<FieldDef>, id: string) {
    exists i :: 0 <= i < |s| && s[i].id == id
  }

  /** `findIndex(f => f.id === id)`. */
  function IndexOfFieldId(s: seq<FieldDef>, id: string): (r: int)
    ensures -1 <= r < |s|
    ensures r == -1 <==> !HasFieldId(s, id)
    ensures r >= 0 ==> s[r].id == id && forall i :: 0 <= i < r ==> s[i].id != id
  {
    if s == [] then -1
    else if s[0].id == id then 0
    else
      var r := IndexOfFieldId(s[1..], id);
      if r == -1 then -1 else r + 1
  }

  /** `filter(field => field.id !== id)`. */
  function WithoutFieldId(s: seq<FieldDef>, id: string): (r: seq<FieldDef>)
    ensures |r| <= |s|
    ensures forall f :: f in r <==> f in s && f.id != id
  {
    if s == [] then []
    else (if s[0].id == id then [] else [s[0]]) + WithoutFieldId(s[1..], id)
  }

  lemma {:induction false} WithoutFieldIdAppend(a: seq<FieldDef>, b: seq<FieldDef>, id: string)
    ensures WithoutFieldId(a + b, id) == WithoutFieldId(a, id) + WithoutFieldId(b, id)
  {
    if a != [] {
      assert (a + b)[1..] == a[1..] + b;
      WithoutFieldIdAppend(a[1..], b, id);
    } else {
      assert a + b == b;
    }
  }

  lemma {:induction false} WithoutAbsentFieldId(s: seq<FieldDef>, id: string)
    requires !HasFieldId(s, id)
    ensures WithoutFieldId(s, id) == s
  {
    if s != [] {
      WithoutAbsentFieldId(s[1..], id);
      assert s == [s[0]] + s[1..];
    }
  }
}
