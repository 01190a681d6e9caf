/**
 * The Students page: its `students` list and `loading` flag, how a fetch
 * fills the list, how a delete reconciles it, and where editing
 * navigates. Each awaited call is replaced by the outcome it settled with.
 */
module StudentsPage {
  import opened Remote

  const LoadFailedMessage := "Failed to load students. Please check if JSON server is running."
  const DeleteFailedMessage := "Failed to delete student. Please try again."
  const EditRoute := "/edit-student/"

  /** The negation of the filter's test `student.id !== id`. The id passed
      in is `student.id` of a listed record, so it may be `undefined`
      (None): a record without an id then has it, and one with an id does
      not. */
  predicate HasId(o: Obj, id: Option<string>) {
    Get(o, "id") == id
  }

  /** `students.filter(student => student.id !== id)`: it never grows the
      list, and keeps only earlier records that do not have the id. */
  function RemoveById(s: seq<Obj>, id: Option<string>): (r: seq<Obj>)
    ensures |r| <= |s|
    ensures forall i | 0 <= i < |r| :: r[i] in s && !HasId(r[i], id)
  {
    if s == [] then []
    else
      assert forall o | o in s[1..] :: o in s;
      (if HasId(s[0], id) then [] else [s[0]]) + RemoveById(s[1..], id)
  }

  /** Dropping the head of a concatenation whose first part is not empty. */
  lemma TailOfAppend<T>(a: seq<T>, b: seq<T>)
    requires a != []
    ensures (a + b)[0] == a[0] && (a + b)[1..] == a[1..] + b
  {
  }

  /** Concatenation is associative. */
  lemma AppendAssoc<T>(x: seq<T>, y: seq<T>, z: seq<T>)
    ensures x + (y + z) == (x + y) + z
  {
  }

  /** One step of the filter over a concatenation whose first part is not
      empty. */
  lemma RemoveByIdCons(a: seq<Obj>, b: seq<Obj>, id: Option<string>)
    requires a != []
    ensures RemoveById(a + b, id) ==
            (if HasId(a[0], id) then [] else [a[0]]) + RemoveById(a[1..] + b, id)
  {
    TailOfAppend(a, b);
  }

  /** Filtering a concatenation filters each part: kept records stay in
      their relative order. */
  lemma {:induction false} RemoveByIdAppend(a: seq<Obj>, b: seq<Obj>, id: Option<string>)
    ensures RemoveById(a + b, id) == RemoveById(a, id) + RemoveById(b, id)
  {
    if a == [] {
      assert a + b == b;
    } else {
      var head := if HasId(a[0], id) then [] else [a[0]];
      RemoveByIdCons(a, b, id);
      RemoveByIdAppend(a[1..], b, id);
      assert RemoveById(a, id) == head + RemoveById(a[1..], id);
      AppendAssoc(head, RemoveById(a[1..], id), RemoveById(b, id));
    }
  }

  /** Every copy of the record goes, and each other record is kept as many
      times as it occurred. */
  lemma {:induction false} RemoveByIdCounts(s: seq<Obj>, id: Option<string>)
    ensures forall o :: multiset(RemoveById(s, id))[o] ==
                        if HasId(o, id) then 0 else multiset(s)[o]
  {
    if s != [] {
      RemoveByIdCounts(s[1..], id);
      assert s == [s[0]] + s[1..];
      assert multiset(s) == multiset([s[0]]) + multiset(s[1..]);
    }
  }

  /** After a delete no record with that id remains, and the records left
      are exactly the earlier ones with another id (or none). */
  lemma RemoveByIdMembers(s: seq<Obj>, id: Option<string>)
    ensures forall o | o in RemoveById(s, id) :: !HasId(o, id)
    ensures forall o :: o in RemoveById(s, id) <==> o in s && !HasId(o, id)
  {
    RemoveByIdCounts(s, id);
    forall o ensures o in RemoveById(s, id) <==> o in s && !HasId(o, id) {
      assert o in RemoveById(s, id) <==> o in multiset(RemoveById(s, id));
      assert o in s <==> o in multiset(s);
    }
  }

  /** Deleting an id no record carries leaves the list as it was. */
  lemma {:induction false} RemoveByIdAbsent(s: seq<Obj>, id: Option<string>)
    requires forall o | o in s :: !HasId(o, id)
    ensures RemoveById(s, id) == s
  {
    if s != [] {
      assert s[0] in s;
      assert forall o | o in s[1..] :: o in s;
      RemoveByIdAbsent(s[1..], id);
      assert [s[0]] + s[1..] == s;
    }
  }

  /** Deleting twice is deleting once. */
  lemma RemoveByIdIdempotent(s: seq<Obj>, id: Option<string>)
    ensures RemoveById(RemoveById(s, id), id) == RemoveById(s, id)
  {
    RemoveByIdMembers(s, id);
    RemoveByIdAbsent(RemoveById(s, id), id);
  }

  /** The list can only get shorter. */
  lemma {:induction false} RemoveByIdShorter(s: seq<Obj>, id: Option<string>)
    ensures |RemoveById(s, id)| <= |s|
    ensures |RemoveById(s, id)| == |s| <==> forall o | o in s :: !HasId(o, id)
  {
    if s != [] {
      RemoveByIdShorter(s[1..], id);
      assert forall o | o in s :: o == s[0] || o in s[1..];
      assert forall o | o in s[1..] :: o in s;
    }
  }

  /** Deleting `undefined` removes exactly the records without an id. */
  lemma RemoveUndefinedId(s: seq<Obj>)
    ensures forall o :: o in RemoveById(s, None) <==> o in s && "id" in o
  {
    RemoveByIdMembers(s, None);
    assert forall o :: HasId(o, None) <==> "id" !in o;
  }

  /** A template literal's rendering of the id: the string itself, or
      "undefined". */
  function IdText(id: Option<string>): (t: string) {
    if id.Some? then id.value else "undefined"
  }

  /** `/edit-student/${id}`. */
  function EditPath(id: Option<string>): (p: string)
    ensures |p| == |EditRoute| + |IdText(id)|
    ensures p[..|EditRoute|] == EditRoute && p[|EditRoute|..] == IdText(id)
  {
    EditRoute + IdText(id)
  }

  /** One mounted Students page. `errorDialogs` holds the text of every
      error dialog opened, `deleteCalls` the ids passed to
      `deleteStudent`, `navigations` every path navigated to. */
  class Page {
    var students: seq<Obj>
    var loading: bool
    var errorDialogs: seq<string>
    var deleteCalls: seq<Option<string>>
    var navigations: seq<string>

    constructor ()
      ensures students == [] && loading
      ensures errorDialogs == [] && deleteCalls == [] && navigations == []
    {
      students := [];
      loading := true;
      errorDialogs := [];
      deleteCalls := [];
      navigations := [];
    }

    /** `fetchStudents`: the list becomes the data (`[]` for null), or `[]`
        with an error dialog when the call fails; the failure is not
        rethrown, and `loading` ends false on every path. */
    method FetchStudents(fetched: Outcome<Option<seq<Obj>>>)
      modifies this`students, this`loading, this`errorDialogs
      ensures fetched == Ok(None) ==> students == []
      ensures fetched.Ok? && fetched.value.Some? ==> students == fetched.value.value
      ensures fetched.Failed? ==> students == []
      ensures errorDialogs == old(errorDialogs) + (if fetched.Failed? then [LoadFailedMessage] else [])
      ensures !loading
    {
      loading := true;
      match fetched {
        case Ok(data) =>
          students := if data.Some? then data.value else [];
        case Failed(_) =>
          students := [];
          errorDialogs := errorDialogs + [LoadFailedMessage];
      }
      loading := false;
    }

    /** `handleDelete(id)`: the list is filtered only once the delete has
        succeeded; a failed delete leaves it unchanged and opens an error
        dialog. */
    method HandleDelete(id: Option<string>, deleted: Outcome<()>)
      modifies this`students, this`errorDialogs, this`deleteCalls
      ensures deleteCalls == old(deleteCalls) + [id]
      ensures deleted.Ok? ==> students == RemoveById(old(students), id)
      ensures deleted.Ok? ==> forall o | o in students :: !HasId(o, id)
      ensures deleted.Failed? ==> students == old(students)
      ensures errorDialogs == old(errorDialogs) + (if deleted.Failed? then [DeleteFailedMessage] else [])
    {
      deleteCalls := deleteCalls + [id];
      if deleted.Ok? {
        RemoveByIdMembers(students, id);
        students := RemoveById(students, id);
      } else {
        errorDialogs := errorDialogs + [DeleteFailedMessage];
      }
    }

    /** `handleEdit(id)`: navigate to the edit route of that id. */
    method HandleEdit(id: Option<string>)
      modifies this`navigations
      ensures navigations == old(navigations) + [EditPath(id)]
    {
      navigations := navigations + [EditRoute + IdText(id)];
    }
  }

  /** A page that loads two records and deletes one of them ends with the
      other record, no error dialog and `loading` false. */
  method LoadThenDelete(a: Obj, b: Obj) returns (students: seq<Obj>, loading: bool, dialogs: seq<string>)
    requires HasId(a, Some("1")) && !HasId(b, Some("1"))
    ensures students == [b] && !loading && dialogs == []
  {
    var page := new Page();
    page.FetchStudents(Ok(Some([a, b])));
    page.HandleDelete(Some("1"), Ok(()));
    assert RemoveById([a, b], Some("1")) == [b] by {
      assert [a, b][1..] == [b];
      assert [b][1..] == [];
      assert RemoveById([b], Some("1")) == [b] + RemoveById([], Some("1"));
    }
    students, loading, dialogs := page.students, page.loading, page.errorDialogs;
  }

  /** A page whose load fails shows an empty list and one error dialog. */
  method LoadFails(status: Option<int>) returns (students: seq<Obj>, loading: bool, dialogs: seq<string>)
    ensures students == [] && !loading && dialogs == [LoadFailedMessage]
  {
    var page := new Page();
    page.FetchStudents(Failed(status));
    students, loading, dialogs := page.students, page.loading, page.errorDialogs;
  }
}
