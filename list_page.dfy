/** The applicant table: its controls (search text, sort field and
    direction, field filter, the row being deleted), the column-header
    click that chooses the sort, the row count line, and the delete button
    that asks for confirmation and goes through the client state. */
module ListPage {
  import opened Optional
  import opened Records
  import opened KeySort
  import opened ListQuery
  import opened Context

  /** The sort the table shows: a field id and a direction. */
  datatype SortChoice = SortChoice(field: string, dir: Direction)

  /** A header click on `field`: the same field flips the direction, another
      field becomes the sort field in ascending order. */
  function NextSort(current: SortChoice, field: string): (r: SortChoice)
    ensures r.field == field
    ensures current.field == field ==> r.dir != current.dir
    ensures current.field != field ==> r.dir == Asc
  {
    if current.field == field then
      SortChoice(field, if current.dir == Asc then Desc else Asc)
    else
      SortChoice(field, Asc)
  }

  /** `n` successive clicks on the header of `field`. */
  function Clicks(current: SortChoice, field: string, n: nat): (r: SortChoice)
    ensures n > 0 ==> r.field == field
  {
    if n == 0 then current else NextSort(Clicks(current, field, n - 1), field)
  }

  /** Clicking the same header twice restores the sort. */
  lemma ClickTwiceRestores(current: SortChoice)
    ensures NextSort(NextSort(current, current.field), current.field) == current
  {
  }

  /** After `n >= 1` clicks on a header that was not the sort field, the
      table is sorted by that field, ascending exactly when `n` is odd. */
  lemma {:induction false} ClicksAlternate(current: SortChoice, field: string, n: nat)
    requires current.field != field && n >= 1
    ensures Clicks(current, field, n).field == field
    ensures Clicks(current, field, n).dir == (if n % 2 == 1 then Asc else Desc)
  {
    if n > 1 {
      ClicksAlternate(current, field, n - 1);
    }
  }

  /** How a delete click ended: the dialog was dismissed, the record was
      deleted, the failure was shown in an alert, or the handler stopped at
      a missing result (reading `success` of `undefined`). */
  datatype DeleteOutcome = Cancelled | Deleted | Alerted(message: string) | Aborted

  class ApplicantListPage {
    var searchTerm: string
    var sortField: string
    var sortDirection: Direction
    var filterField: string
    var isDeleting: Option<nat>

    /** The controls as the page mounts: no search, sorted by name
        ascending, no filter, no deletion in progress. */
    constructor ()
      ensures searchTerm == "" && sortField == "name" && sortDirection == Asc
      ensures filterField == "all" && isDeleting == None
    {
      searchTerm := "";
      sortField := "name";
      sortDirection := Asc;
      filterField := "all";
      isDeleting := None;
    }

    /** The rows shown for the given applicants under the current controls. */
    function Shown(applicants: seq<Applicant>): seq<Applicant>
      reads this
    {
      Displayed(applicants, searchTerm, filterField, sortField, sortDirection)
    }

    /** The "Showing X of Y applicants" line: never more rows shown than
        there are applicants, and all of them with the default controls. */
    function Counts(applicants: seq<Applicant>): (r: (nat, nat))
      reads this
      ensures r.1 == |applicants| && r.0 <= r.1
      ensures searchTerm == "" && filterField == "all" ==> r.0 == r.1
    {
      DisplayedSpec(applicants, searchTerm, filterField, sortField, sortDirection);
      (|Shown(applicants)|, |applicants|)
    }

    /** `handleSort`: a click on a column header. */
    method HandleSort(field: string)
      modifies this
      ensures SortChoice(sortField, sortDirection) == NextSort(SortChoice(old(sortField), old(sortDirection)), field)
      ensures searchTerm == old(searchTerm) && filterField == old(filterField) && isDeleting == old(isDeleting)
    {
      if sortField == field {
        sortDirection := if sortDirection == Asc then Desc else Asc;
      } else {
        sortField := field;
        sortDirection := Asc;
      }
    }

    /** The search box's `onChange`. */
    method SetSearchTerm(term: string)
      modifies this
      ensures searchTerm == term
      ensures sortField == old(sortField) && sortDirection == old(sortDirection)
      ensures filterField == old(filterField) && isDeleting == old(isDeleting)
    {
      searchTerm := term;
    }

    /** The filter select's `onChange`. */
    method SetFilterField(field: string)
      modifies this
      ensures filterField == field
      ensures searchTerm == old(searchTerm) && sortField == old(sortField)
      ensures sortDirection == old(sortDirection) && isDeleting == old(isDeleting)
    {
      filterField := field;
    }

    /** `handleDelete`: after confirmation, marks the row as being deleted,
        asks the client state to delete (which receives `resp` from the
        transport), clears the mark and alerts on failure. The mark is
        cleared before the result is read, so it is cleared even when the
        handler then stops at a missing result. */
    method HandleDelete(ctx: ApplicantProvider, id: nat, confirmed: bool, resp: Response<Applicant>)
        returns (outcome: DeleteOutcome)
      requires ctx as object != this
      modifies this, ctx
      ensures isDeleting == old(isDeleting) || isDeleting == None
      ensures !confirmed ==> outcome == Cancelled && isDeleting == old(isDeleting) && unchanged(ctx)
      ensures confirmed ==> isDeleting == None && ctx.customFields == old(ctx.customFields)
      ensures confirmed ==> match resp
        case Ok(_) => outcome == Deleted && ctx.applicants == WithoutId(old(ctx.applicants), id)
        case Declined(_) => outcome == Aborted && ctx.applicants == old(ctx.applicants)
        case Thrown(m) => outcome == Alerted("Failed to delete applicant: " + m) && ctx.applicants == old(ctx.applicants)
      ensures searchTerm == old(searchTerm) && sortField == old(sortField)
      ensures sortDirection == old(sortDirection) && filterField == old(filterField)
    {
      if !confirmed {
        return Cancelled;
      }
      isDeleting := Some(id);
      var result := ctx.DeleteApplicant(id, resp);
      isDeleting := None;
      match result {
        case NoReply =>
          outcome := Aborted;
        case Succeeded(_) =>
          outcome := Deleted;
        case Failed(e) =>
          outcome := Alerted("Failed to delete applicant: " + e);
      }
    }
  }
}
