/**
  The departments manager: the search filter over the loaded departments and the
  editor form (its required-name guard, reset and edit defaults).
 */
module Departments {
  import opened Maybe
  import opened JsText

  /** A department row; name and status may be missing. */
  datatype Department = Department(id: nat, name: Option<string>, status: Option<string>)

  /** A missing field reads as the empty string. */
  function FieldText(field: Option<string>): string {
    if field.Some? then field.value else ""
  }

  // ---------------------------------------------------------------------------
  // The search filter
  // ---------------------------------------------------------------------------

  /** A row matches a lower-case needle when its lower-cased name or status
      contains it. */
  predicate Matches(d: Department, needle: string): (b: bool)
    // an empty needle matches every row, a missing field only the empty needle
    ensures needle == "" ==> b
    ensures b ==> |needle| <= |FieldText(d.name)| || |needle| <= |FieldText(d.status)|
  {
    Contains(ToLower(FieldText(d.name)), needle) || Contains(ToLower(FieldText(d.status)), needle)
  }

  /** The filter step: the matching rows, in their order. */
  function KeepMatching(items: seq<Department>, needle: string): (r: seq<Department>)
    ensures |r| <= |items|
    ensures forall d :: d in r <==> d in items && Matches(d, needle)
  {
    if items == [] then []
    else if Matches(items[0], needle) then [items[0]] + KeepMatching(items[1..], needle)
    else KeepMatching(items[1..], needle)
  }

  /** The `filtered` memo: the query is trimmed and lower-cased; an empty one
      shows every row. */
  function Filtered(items: seq<Department>, query: string): (r: seq<Department>)
    ensures AllSpace(query) ==> r == items
    ensures |r| <= |items|
    ensures !AllSpace(query) ==> forall d :: d in r <==> d in items && Matches(d, ToLower(Trim(query)))
  {
    TrimShape(query);
    var needle := ToLower(Trim(query));
    if needle == "" then items else KeepMatching(items, needle)
  }

  /** An empty or all-whitespace query leaves the list as it is. */
  lemma BlankQueryKeepsAll(items: seq<Department>, query: string)
    requires AllSpace(query)
    ensures Filtered(items, query) == items
  {
    TrimShape(query);
  }

  /** Any other query keeps exactly the rows that match it, each as often as it
      occurs, and never adds a row. */
  lemma {:induction false} FilterCounts(items: seq<Department>, needle: string, d: Department)
    ensures multiset(KeepMatching(items, needle))[d] == if Matches(d, needle) then multiset(items)[d] else 0
  {
    if items != [] {
      FilterCounts(items[1..], needle, d);
      var rest := KeepMatching(items[1..], needle);
      assert items == [items[0]] + items[1..];
      assert multiset(items) == multiset([items[0]]) + multiset(items[1..]);
      if Matches(items[0], needle) {
        assert KeepMatching(items, needle) == [items[0]] + rest;
        assert multiset(KeepMatching(items, needle)) == multiset([items[0]]) + multiset(rest);
      } else {
        assert KeepMatching(items, needle) == rest;
      }
    }
  }

  lemma QueryKeepsMatching(items: seq<Department>, query: string)
    requires !AllSpace(query)
    ensures var needle := ToLower(Trim(query));
            && Filtered(items, query) == KeepMatching(items, needle)
            && |Filtered(items, query)| <= |items|
            && forall d :: multiset(Filtered(items, query))[d] == if Matches(d, needle) then multiset(items)[d] else 0
  {
    TrimShape(query);
    var needle := ToLower(Trim(query));
    forall d ensures multiset(KeepMatching(items, needle))[d] == if Matches(d, needle) then multiset(items)[d] else 0 {
      FilterCounts(items, needle, d);
    }
  }

  /** The filter works row by row, so the kept rows stay in their order. */
  lemma {:induction false} FilterConcat(a: seq<Department>, b: seq<Department>, needle: string)
    ensures KeepMatching(a + b, needle) == KeepMatching(a, needle) + KeepMatching(b, needle)
  {
    if a == [] {
      assert a + b == b;
    } else {
      assert (a + b)[0] == a[0];
      assert (a + b)[1..] == a[1..] + b;
      FilterConcat(a[1..], b, needle);
    }
  }

  /** Searching the search result again changes nothing. */
  lemma {:induction false} FilterIdempotent(items: seq<Department>, needle: string)
    ensures KeepMatching(KeepMatching(items, needle), needle) == KeepMatching(items, needle)
  {
    if items != [] {
      FilterIdempotent(items[1..], needle);
      if Matches(items[0], needle) {
        var rest := KeepMatching(items[1..], needle);
        assert ([items[0]] + rest)[0] == items[0];
        assert ([items[0]] + rest)[1..] == rest;
      }
    }
  }

  lemma FilteredIdempotent(items: seq<Department>, query: string)
    ensures Filtered(Filtered(items, query), query) == Filtered(items, query)
  {
    if ToLower(Trim(query)) != "" {
      FilterIdempotent(items, ToLower(Trim(query)));
    }
  }

  /** A row with neither name nor status never matches a non-blank query. */
  lemma MissingFieldsNeverMatch(d: Department, query: string)
    requires d.name.None? && d.status.None?
    requires !AllSpace(query)
    ensures d !in Filtered([d], query)
  {
    TrimShape(query);
    EmptyContainsOnlyEmpty(ToLower(Trim(query)));
  }

  // ---------------------------------------------------------------------------
  // The editor
  // ---------------------------------------------------------------------------

  datatype DeptForm = DeptForm(name: string, status: string)

  /** `initialForm`. */
  const InitialForm: DeptForm := DeptForm("", "Active")

  /** The editor state: the form, the id of the row being edited (a zero id is
      as falsy as none), whether a save is in progress, and the error shown. */
  datatype Editor = Editor(form: DeptForm, editingId: Option<nat>, saving: bool, error: string)

  /** `resetForm`: back to the initial form, not editing, not saving. */
  function ResetForm(e: Editor): (r: Editor)
    ensures r.form == DeptForm("", "Active") && r.editingId.None? && !r.saving
    ensures r.error == e.error
  {
    Editor(InitialForm, None, false, e.error)
  }

  /** `handleEdit`: the row is loaded into the form, a missing name as "" and a
      missing status as "Active". */
  function HandleEdit(e: Editor, row: Department): (r: Editor)
    ensures r.editingId == Some(row.id)
    ensures r.form.name == if row.name.Some? then row.name.value else ""
    ensures r.form.status == if row.status.Some? && row.status.value != "" then row.status.value else "Active"
    ensures r.saving == e.saving && r.error == e.error
  {
    var status := if row.status.Some? && row.status.value != "" then row.status.value else "Active";
    e.(editingId := Some(row.id), form := DeptForm(FieldText(row.name), status))
  }

  /** What `handleSubmit` does with the form: nothing but an error when the name
      is blank, otherwise an update of the edited row or a creation. */
  datatype Request = NameRequired | Create(body: DeptForm) | Update(id: nat, body: DeptForm)

  /** `editingId` is truthy. */
  predicate IsEditing(e: Editor) {
    e.editingId.Some? && e.editingId.value != 0
  }

  function SubmitRequest(e: Editor): (r: Request)
    ensures r.NameRequired? <==> AllSpace(e.form.name)
    ensures r.Update? <==> !AllSpace(e.form.name) && IsEditing(e)
    ensures r.Update? ==> r.id == e.editingId.value
    ensures !r.NameRequired? ==> r.body == DeptForm(Trim(e.form.name), e.form.status)
    ensures !r.NameRequired? ==> r.body.name != "" && !IsSpace(r.body.name[0])
  {
    TrimShape(e.form.name);
    var name := Trim(e.form.name);
    if name == "" then NameRequired
    else if IsEditing(e) then Update(e.editingId.value, DeptForm(name, e.form.status))
    else Create(DeptForm(name, e.form.status))
  }

  /** The answer of the create or update request. */
  datatype Outcome = Saved | SaveFailed(serverMessage: Option<string>)

  const NameRequiredMessage: string := "Name is required"
  const OperationFailedMessage: string := "Operation failed"

  /** `handleSubmit` on the editor: a blank name only sets the error; a save
      resets the form; a failure keeps the form and shows the server's message
      or "Operation failed". */
  function HandleSubmit(e: Editor, outcome: Outcome): (r: Editor)
    ensures AllSpace(e.form.name) ==> r == e.(error := "Name is required")
    ensures !AllSpace(e.form.name) && outcome.Saved? ==>
              r.form == InitialForm && r.editingId.None? && !r.saving && r.error == ""
    ensures !AllSpace(e.form.name) && outcome.SaveFailed? ==>
              && r.form == e.form && r.editingId == e.editingId && !r.saving
              && r.error == if outcome.serverMessage.Some? && outcome.serverMessage.value != ""
                            then outcome.serverMessage.value else "Operation failed"
  {
    match SubmitRequest(e)
    case NameRequired => e.(error := NameRequiredMessage)
    case _ =>
      match outcome
      case Saved => ResetForm(e.(error := ""))
      case SaveFailed(m) =>
        e.(saving := false, error := if m.Some? && m.value != "" then m.value else OperationFailedMessage)
  }
}
