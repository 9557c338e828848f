/** The list view's query: a case-insensitive substring search over every
    value of a record, a "has a non-blank value for this field" filter, and
    a stable sort by one field's lower-cased text in either direction. The
    whole pipeline works on a copy of the list it is given. */
module ListQuery {
  import opened Optional
  import opened Text
  import opened Records
  import opened KeySort

  // ---------------------------------------------------------------------
  // Search
  // ---------------------------------------------------------------------

  /** `String(value).toLowerCase().includes(searchTerm.toLowerCase())`. */
  predicate ValueMatches(value: string, term: string) {
    Contains(Lower(value), Lower(term))
  }

  /** `Object.values(app).some(...)`: the id (as its decimal text), every
      text field, and the `documents` object, whose text is
      "[object Object]". */
  predicate RecordMatches(a: Applicant, term: string) {
    || ValueMatches(NatToDecimal(a.id), term)
    || (exists k :: k in a.fields && ValueMatches(a.fields[k], term))
    || (a.documents.Some? && ValueMatches("[object Object]", term))
  }

  /** `filter` with the search predicate: every copy of a matching record
      is kept, and nothing else. */
  function KeepMatching(s: seq<Applicant>, term: string): (r: seq<Applicant>)
    ensures multiset(r) <= multiset(s)
    ensures forall a :: a in r <==> a in s && RecordMatches(a, term)
    ensures forall a :: multiset(r)[a] == if RecordMatches(a, term) then multiset(s)[a] else 0
  {
    if s == [] then []
    else
      var rest := KeepMatching(s[1..], term);
      assert s == [s[0]] + s[1..];
      if RecordMatches(s[0], term) then [s[0]] + rest else rest
  }

  /** The search keeps input order: it distributes over concatenation. */
  lemma {:induction false} KeepMatchingAppend(s: seq<Applicant>, t: seq<Applicant>, term: string)
    ensures KeepMatching(s + t, term) == KeepMatching(s, term) + KeepMatching(t, term)
  {
    if s == [] {
      assert s + t == t;
    } else {
      assert (s + t)[0] == s[0] && (s + t)[1..] == s[1..] + t;
      KeepMatchingAppend(s[1..], t, term);
    }
  }

  /** The search step: the identity for an empty term. */
  function SearchStep(s: seq<Applicant>, term: string): seq<Applicant> {
    if term == "" then s else KeepMatching(s, term)
  }

  // ---------------------------------------------------------------------
  // Field filter
  // ---------------------------------------------------------------------

  /** `app[field] && app[field].trim() !== ""`. */
  predicate HasValue(a: Applicant, field: string) {
    field in a.fields && a.fields[field] != "" && Trim(a.fields[field]) != ""
  }

  /** `filter` with the value test: every copy of a record with a value is
      kept, and nothing else. */
  function KeepWithValue(s: seq<Applicant>, field: string): (r: seq<Applicant>)
    ensures multiset(r) <= multiset(s)
    ensures forall a :: a in r <==> a in s && HasValue(a, field)
    ensures forall a :: multiset(r)[a] == if HasValue(a, field) then multiset(s)[a] else 0
  {
    if s == [] then []
    else
      var rest := KeepWithValue(s[1..], field);
      assert s == [s[0]] + s[1..];
      if HasValue(s[0], field) then [s[0]] + rest else rest
  }

  /** The field filter keeps input order: it distributes over
      concatenation. */
  lemma {:induction false} KeepWithValueAppend(s: seq<Applicant>, t: seq<Applicant>, field: string)
    ensures KeepWithValue(s + t, field) == KeepWithValue(s, field) + KeepWithValue(t, field)
  {
    if s == [] {
      assert s + t == t;
    } else {
      assert (s + t)[0] == s[0] && (s + t)[1..] == s[1..] + t;
      KeepWithValueAppend(s[1..], t, field);
    }
  }

  /** The field-filter step: the identity for "all". */
  function FieldStep(s: seq<Applicant>, field: string): seq<Applicant> {
    if field == "all" then s else KeepWithValue(s, field)
  }

  /** A record has a value for a field exactly when the field is present
      and holds a character that is not white space. */
  lemma HasValueIffNotBlank(a: Applicant, field: string)
    ensures HasValue(a, field) <==> field in a.fields && !Blank(a.fields[field])
  {
    if field in a.fields {
      TrimEmptyIffBlank(a.fields[field]);
    }
  }

  // ---------------------------------------------------------------------
  // Sort key
  // ---------------------------------------------------------------------

  /** `(a[field] || "").toLowerCase()`: a missing or empty value sorts as
      the empty string. */
  function SortKey(a: Applicant, field: string): (k: string)
    ensures IsLowerCase(k)
    ensures field !in a.fields || a.fields[field] == "" ==> k == ""
  {
    var v := if field in a.fields then a.fields[field] else "";
    LowerIsLowerCase(v);
    Lower(v)
  }

  /** The comparator's key for one sort field. */
  function KeyOf(field: string): Applicant -> string {
    a => SortKey(a, field)
  }

  /** A record without a value for the sort field goes first in an
      ascending sort and last in a descending one: no record goes strictly
      before it, respectively after it. */
  lemma MissingValueSortsFirst(a: Applicant, b: Applicant, field: string)
    requires field !in a.fields || a.fields[field] == ""
    ensures !Before(b, a, KeyOf(field), Asc)
    ensures !Before(a, b, KeyOf(field), Desc)
  {
    assert SortKey(a, field) == "";
  }

  // ---------------------------------------------------------------------
  // The whole pipeline
  // ---------------------------------------------------------------------

  /** The records that survive the search and the field filter, in input
      order. */
  function Filtered(s: seq<Applicant>, term: string, filterField: string): seq<Applicant> {
    FieldStep(SearchStep(s, term), filterField)
  }

  /** `filteredAndSortedApplicants`. */
  function Displayed(s: seq<Applicant>, term: string, filterField: string, sortField: string, dir: Direction): seq<Applicant> {
    Sort(Filtered(s, term, filterField), KeyOf(sortField), dir)
  }

  /** The displayed list is a sub-multiset of the input (so never longer),
      holds exactly the records that pass both steps, is sorted, and keeps
      records with equal keys in their post-filter order. */
  lemma DisplayedSpec(s: seq<Applicant>, term: string, filterField: string, sortField: string, dir: Direction)
    ensures var r := Displayed(s, term, filterField, sortField, dir);
      && multiset(r) <= multiset(s)
      && |r| <= |s|
      && (forall a :: a in r <==>
            a in s && (term == "" || RecordMatches(a, term))
            && (filterField == "all" || HasValue(a, filterField)))
      && Sorted(r, KeyOf(sortField), dir)
      && (forall k :: KeyRun(r, KeyOf(sortField), k) == KeyRun(Filtered(s, term, filterField), KeyOf(sortField), k))
  {
    var key := KeyOf(sortField);
    var f := Filtered(s, term, filterField);
    var r := Displayed(s, term, filterField, sortField, dir);
    assert multiset(f) <= multiset(s);
    SortPermutes(f, key, dir);
    assert |r| <= |s| by {
      assert multiset(s) == multiset(r) + (multiset(s) - multiset(r));
    }
    forall a ensures a in r <==> a in f {
      assert a in r <==> a in multiset(r);
    }
    SortSorted(f, key, dir);
    forall k ensures KeyRun(r, key, k) == KeyRun(f, key, k) {
      SortStable(f, key, dir, k);
    }
  }

  /** With the default controls nothing is filtered out. */
  lemma DefaultControlsKeepEverything(s: seq<Applicant>, sortField: string, dir: Direction)
    ensures multiset(Displayed(s, "", "all", sortField, dir)) == multiset(s)
  {
    SortPermutes(s, KeyOf(sortField), dir);
  }

  /** Toggling the direction of a sort field whose values are all distinct
      reverses the displayed list. */
  lemma ToggleReverses(s: seq<Applicant>, term: string, filterField: string, sortField: string)
    requires DistinctKeys(Filtered(s, term, filterField), KeyOf(sortField))
    ensures Displayed(s, term, filterField, sortField, Desc)
            == Reverse(Displayed(s, term, filterField, sortField, Asc))
  {
    DescendingReversesAscending(Filtered(s, term, filterField), KeyOf(sortField));
  }

  // ---------------------------------------------------------------------
  // Scenarios
  // ---------------------------------------------------------------------

  /** "makati" finds a record whose city is "Makati City". */
  lemma SearchIgnoresCase(a: Applicant)
    requires "city" in a.fields && a.fields["city"] == "Makati City"
    ensures RecordMatches(a, "makati")
  {
    var v := a.fields["city"];
    LowerOfLowerCase("makati");
    forall i | 0 <= i < 6 ensures Lower(v)[i] == "makati"[i] {
      LowerAt(v, i);
    }
    assert OccursAt(Lower(v), Lower("makati"), 0);
  }

  /** Lower-casing the value or the term never changes whether it matches. */
  lemma ValueMatchesIgnoresCase(value: string, term: string)
    ensures ValueMatches(value, term) == ValueMatches(Lower(value), term)
    ensures ValueMatches(value, term) == ValueMatches(value, Lower(term))
  {
    LowerIsLowerCase(value);
    LowerOfLowerCase(Lower(value));
    LowerIsLowerCase(term);
    LowerOfLowerCase(Lower(term));
  }

  /** Every record matches a search for the digits of its own id, because
      the id is one of the searched values. */
  lemma SearchSeesTheId(a: Applicant)
    ensures RecordMatches(a, NatToDecimal(a.id))
  {
    var d := NatToDecimal(a.id);
    assert IsLowerCase(d);
    LowerOfLowerCase(d);
    ContainsEmptyAndSelf(d);
  }
}
