/**
 * The EditStudent page: loading the record named by the route's id,
 * redirecting when it cannot be shown, and submitting an edit behind a
 * confirmation, with the `loading` and `submitting` flags it keeps.
 * Every awaited call and every dialog answer is an input.
 */
module EditStudentPage {
  import opened Remote

  const StudentsPath := "/students"

  const NotFoundDialog := "The student you are trying to edit does not exist."
  const LoadFailedDialog := "Failed to load student data. Please try again."

  const UpdateNotFound := "Student not found. It may have been deleted."
  const UpdateInvalid := "Invalid data. Please check the information and try again."
  const UpdateFailed := "Error updating student. Please try again."

  /** The message of the "Update Failed!" dialog for the status of the
      error's response (None when there was no response). */
  function UpdateErrorMessage(status: Option<int>): (m: string)
    ensures m == UpdateNotFound <==> status == Some(404)
    ensures m == UpdateInvalid <==> status == Some(400)
    ensures m == UpdateFailed <==> status != Some(404) && status != Some(400)
  {
    if status == Some(404) then UpdateNotFound
    else if status == Some(400) then UpdateInvalid
    else UpdateFailed
  }

  /** What the page renders. */
  datatype Screen = Loading | EditForm(student: Obj) | NotFound

  /** One mounted EditStudent page for route id `id`. `errorDialogs` holds
      the text of every error dialog opened, `updates` every
      `updateStudent(id, data)` call, `navigations` every path navigated
      to. */
  class Page {
    const id: string
    var student: Option<Obj>
    var loading: bool
    var submitting: bool
    var errorDialogs: seq<string>
    var updates: seq<(string, Obj)>
    var navigations: seq<string>

    constructor (id: string)
      ensures this.id == id
      ensures student == None && loading && !submitting
      ensures errorDialogs == [] && updates == [] && navigations == []
    {
      this.id := id;
      student := None;
      loading := true;
      submitting := false;
      errorDialogs := [];
      updates := [];
      navigations := [];
    }

    /** The page renders the loading view while loading, and otherwise the
        form exactly when a student has been loaded. */
    function View(): (v: Screen)
      reads this
      ensures v == Loading <==> loading
      ensures v.EditForm? <==> !loading && student.Some?
      ensures v.EditForm? ==> Some(v.student) == student
      ensures v == NotFound <==> !loading && student.None?
    {
      if loading then Loading
      else if student.Some? then EditForm(student.value)
      else NotFound
    }

    /** `fetchStudent`: a record found is stored; a missing (falsy) record
        or a failed call opens an error dialog, then goes back to the list,
        and leaves `student` as it was. `loading` ends false on every path. */
    method FetchStudent(fetched: Outcome<Option<Obj>>)
      modifies this`student, this`loading, this`errorDialogs, this`navigations
      ensures fetched.Ok? && fetched.value.Some? ==> student == fetched.value
      ensures !(fetched.Ok? && fetched.value.Some?) ==> student == old(student)
      ensures fetched == Ok(None) ==>
                errorDialogs == old(errorDialogs) + [NotFoundDialog] &&
                navigations == old(navigations) + [StudentsPath]
      ensures fetched.Failed? ==>
                errorDialogs == old(errorDialogs) + [LoadFailedDialog] &&
                navigations == old(navigations) + [StudentsPath]
      ensures fetched.Ok? && fetched.value.Some? ==>
                errorDialogs == old(errorDialogs) && navigations == old(navigations)
      ensures !loading
    {
      loading := true;
      match fetched {
        case Ok(None) =>
          errorDialogs := errorDialogs + [NotFoundDialog];
          navigations := navigations + [StudentsPath];
        case Ok(Some(data)) =>
          student := Some(data);
        case Failed(_) =>
          errorDialogs := errorDialogs + [LoadFailedDialog];
          navigations := navigations + [StudentsPath];
      }
      loading := false;
    }

    /** `handleSubmit(studentData)`: nothing is sent unless the user
        confirms; a confirmed edit calls `updateStudent(id, data)` and goes
        back to the list only if that succeeds, otherwise it opens the
        dialog for the error's status. `submitting` ends false on every
        path. */
    method HandleSubmit(data: Obj, confirmed: bool, updated: Outcome<()>)
      modifies this`submitting, this`errorDialogs, this`updates, this`navigations
      ensures !confirmed ==>
                updates == old(updates) && navigations == old(navigations) &&
                errorDialogs == old(errorDialogs)
      ensures confirmed ==> updates == old(updates) + [(id, data)]
      ensures confirmed && updated.Ok? ==>
                navigations == old(navigations) + [StudentsPath] && errorDialogs == old(errorDialogs)
      ensures confirmed && updated.Failed? ==>
                navigations == old(navigations) &&
                errorDialogs == old(errorDialogs) + [UpdateErrorMessage(updated.status)]
      ensures !submitting
    {
      submitting := true;
      if !confirmed {
        submitting := false;
        return;
      }
      updates := updates + [(id, data)];
      match updated {
        case Ok(_) =>
          navigations := navigations + [StudentsPath];
        case Failed(status) =>
          var message := UpdateFailed;
          if status == Some(404) {
            message := UpdateNotFound;
          } else if status == Some(400) {
            message := UpdateInvalid;
          }
          errorDialogs := errorDialogs + [message];
      }
      submitting := false;
    }

    /** `handleBack`: leave for the list only when the user confirms. */
    method HandleBack(confirmed: bool)
      modifies this`navigations
      ensures navigations == old(navigations) + (if confirmed then [StudentsPath] else [])
    {
      if confirmed {
        navigations := navigations + [StudentsPath];
      }
    }
  }

  /** Opening the page for an id the server does not know ends on the
      not-found view, back on the list, with the form never shown. That
      holds whether the lookup resolves to nothing or is rejected (a 404
      from the server, say); only the dialog differs. */
  method OpenMissing(id: string, fetched: Outcome<Option<Obj>>)
    returns (view: Screen, navigations: seq<string>, dialogs: seq<string>)
    requires !(fetched.Ok? && fetched.value.Some?)
    ensures view == NotFound && navigations == [StudentsPath]
    ensures dialogs == [if fetched.Failed? then LoadFailedDialog else NotFoundDialog]
  {
    var page := new Page(id);
    page.FetchStudent(fetched);
    view, navigations, dialogs := page.View(), page.navigations, page.errorDialogs;
  }

  /** Loading a record and then submitting an edit the server rejects with
      404 leaves the form on screen, with one update call, no navigation
      and the not-found message. */
  method EditRejected(id: string, s: Obj, data: Obj)
    returns (view: Screen, updates: seq<(string, Obj)>, navigations: seq<string>, dialogs: seq<string>)
    ensures view == EditForm(s) && updates == [(id, data)] && navigations == []
    ensures dialogs == [UpdateNotFound]
  {
    var page := new Page(id);
    page.FetchStudent(Ok(Some(s)));
    page.HandleSubmit(data, true, Failed(Some(404)));
    view, updates, navigations, dialogs := page.View(), page.updates, page.navigations, page.errorDialogs;
  }
}
