# Student management front end: validation, id allocation and page state

This project models the core of a small React front end for a student
registry that is backed by a JSON REST collection. The model covers:

- **StudentForm.** The field rules of the form and its `formData`/`errors`
  state: the four checks of `validateForm`, typing into a field, and a
  submit that is gated by validation.
- **studentApi `addStudent`.** How the next id is derived from the listed
  records (`parseInt(id) || 0`, maximum, plus one, `toString`). What
  object is posted, and how a failed listing propagates.
- **The Students page.** Its `students` list and `loading` flag: fetching
  the list, deleting by id, and the edit route.
- **The EditStudent page.** Loading the record named in the route,
  redirecting when that fails, and submitting behind a confirmation. It
  keeps the `loading` and `submitting` flags, and maps the HTTP status to
  an error message.

Every awaited network call, every dialog answer and every answer from the
user is a parameter. A call's settled promise is an `Outcome`: `Ok(value)`,
or `Failed(status)` with the status of the error's response, if there was
one.

The modules follow the program's files:

| module | file | models |
|---|---|---|
| `Text` | `text.dfy` | The JavaScript string built-ins the form uses. `trim` is modelled with the ECMAScript whitespace set, and `.length` counts UTF-16 code units. The rest are `replace(/\D/g,'')`, `/^\d{10}$/` and `/\S+@\S+\.\S+/`. The email regular expression has a declarative specification (`MatchesEmailRegex`) and an executable scan (`HasEmailShape`), proved equal. The digit strip and the ten-digit test are written directly as functions. |
| `Remote` | `remote.dfy` | JSON objects as string maps, and settled promises as `Outcome`. |
| `StudentForm` | `student_form.dfy` | The pure rules and `Validate`, plus the `Form` class holding `formData`, `errors`, the toasts shown and the `onSubmit` calls made. |
| `StudentApi` | `student_api.dfy` | `parseInt` without a radix, `toString`, the next id, the payload, and `addStudent` as a function of its two outcomes. |
| `StudentsPage` | `students_page.dfy` | The filter used by delete, and the `Page` class. |
| `EditStudentPage` | `edit_student.dfy` | The status-to-message function, and the `Page` class with its rendered `View`. |

## Model

| member | source | states |
|---|---|---|
| Text.Trim | student/src/Components/StudentForm.jsx:29 | `trim()` never lengthens the string. A trimmed string that is not empty starts and ends with a non-space character. |
| Text.TrimEdges | student/src/Components/StudentForm.jsx:29 | `trim()` gives '' exactly when the string is all whitespace. |
| Text.TrimSlice | student/src/Components/StudentForm.jsx:29 | `trim()` returns a contiguous slice of the input, and only whitespace lies on either side of that slice. |
| Text.TrimUnchanged | student/src/Components/StudentForm.jsx:29 | A string with non-space ends is its own trim. |
| Text.LeadingSpacesRun | student/src/Components/StudentForm.jsx:29 | The prefix that trim drops is exactly the leading run of whitespace. |
| Text.TrailingSpacesRun | student/src/Components/StudentForm.jsx:29 | The suffix that trim drops is exactly the trailing run of whitespace. |
| Text.Utf16Length | student/src/Components/StudentForm.jsx:31 | `.length` lies between the number of code points and twice that number. |
| Text.Utf16LengthBounds | student/src/Components/StudentForm.jsx:31 | `.length` equals the number of code points exactly when no character is outside the Basic Multilingual Plane. |
| Text.Utf16LengthOne | student/src/Components/StudentForm.jsx:31 | `.length` is 1 exactly for a single character of the Basic Multilingual Plane. |
| Text.DigitsOnly | student/src/Components/StudentForm.jsx:47 | `replace(/\D/g,'')` leaves only decimal digits and never lengthens the string. |
| Text.DigitsOnlyOfDigits | student/src/Components/StudentForm.jsx:47 | Stripping non-digits from a string of digits changes nothing. |
| Text.DigitsOnlyOfNonDigits | student/src/Components/StudentForm.jsx:47 | A string without digits strips to ''. |
| Text.DigitsOfSpaces | student/src/Components/StudentForm.jsx:45-47 | A whitespace-only string strips to ''. |
| Text.DigitsOnlyAppend | student/src/Components/StudentForm.jsx:47 | Stripping works piece by piece, so the digits keep their order. |
| Text.StrippedTenDigits | student/src/Components/StudentForm.jsx:47 | On a stripped string, `/^\d{10}$/` holds exactly when there are ten characters. |
| Text.EmailRegexByAnchors | student/src/Components/StudentForm.jsx:37 | The unanchored `\S+@\S+\.\S+` matches exactly when some '@' has a non-space character before it. That '@' must also be followed by a run of non-space characters that contains a '.', where the '.' has at least one character before it in the run and one non-space character after it. |
| Text.MatchAtAnchors | student/src/Components/StudentForm.jsx:37 | A match with its '@' and '.' at given positions is well anchored there. |
| Text.AnchorsMatchAt | student/src/Components/StudentForm.jsx:37 | Well-placed anchors give a match of the regex. |
| Text.DotRunCorrect | student/src/Components/StudentForm.jsx:37 | The scan from index k after an '@' finds a dot exactly when a well-placed '.' exists from k on. |
| Text.AtFromCorrect | student/src/Components/StudentForm.jsx:37 | The scan from index p finds an address exactly when a well-anchored '@' exists from p on. |
| Text.AtFromWithoutAt | student/src/Components/StudentForm.jsx:37 | The scan finds nothing where there is no '@'. |
| Text.HasEmailShape | student/src/Components/StudentForm.jsx:37 | The executable email scan holds exactly when the regular expression matches, in both directions. |
| StudentForm.NameRule | student/src/Components/StudentForm.jsx:29-33 | The name rule gives no message, "Name is required" or "Name must be at least 2 characters", and nothing else. |
| StudentForm.EmailRule | student/src/Components/StudentForm.jsx:35-39 | The email rule gives no message, "Email is required" or "Email is invalid", and nothing else. |
| StudentForm.CourseRule | student/src/Components/StudentForm.jsx:41-43 | The course rule gives no message or "Course is required". |
| StudentForm.PhoneRule | student/src/Components/StudentForm.jsx:45-49 | The phone rule gives no message, "Phone is required" or "Phone must be 10 digits", and nothing else. |
| StudentForm.NameRuleMeaning | student/src/Components/StudentForm.jsx:29-33 | "Name is required" is given exactly for a blank name. "Name must be at least 2 characters" is given exactly when the trimmed name is one UTF-16 unit long. No error is given exactly when the trimmed length is at least 2. |
| StudentForm.EmailRuleMeaning | student/src/Components/StudentForm.jsx:35-39 | "Email is required" is given exactly for a blank email. "Email is invalid" is given exactly when the email is not blank and the untrimmed string does not match the regex. No error is given exactly when it matches. |
| StudentForm.CourseRuleMeaning | student/src/Components/StudentForm.jsx:41-43 | "Course is required" is given exactly for a blank course. Any other course is accepted. |
| StudentForm.PhoneRuleMeaning | student/src/Components/StudentForm.jsx:45-49 | "Phone is required" is given exactly for a blank phone. "Phone must be 10 digits" is given exactly when the phone is not blank and does not strip to ten digits. No error is given exactly when it strips to ten digits. |
| StudentForm.WithError | student/src/Components/StudentForm.jsx:30 | Recording a rule's outcome adds the field's key exactly when the rule gave a message, and stores that message under it. Every other entry keeps its value, and no message leaves the map unchanged. |
| StudentForm.StepsAt | student/src/Components/StudentForm.jsx:27-49 | After the four recording steps, a field has an entry exactly when its own rule gave a message, and the entry is that message. |
| StudentForm.Validate | student/src/Components/StudentForm.jsx:26-49 | Each field's entry, when present, is one of that field's own messages. |
| StudentForm.ValidateAt | student/src/Components/StudentForm.jsx:26-49 | A field has an entry exactly when its rule gives a message, and the entry is that message. |
| StudentForm.ValidateEntries | student/src/Components/StudentForm.jsx:26-49 | The name has an entry exactly when the trimmed name is shorter than two UTF-16 units. The email has one exactly when it does not match the regex. The course has one exactly when it is blank, and the phone exactly when it does not strip to ten digits. A name, email or phone entry is the "required" message for a blank value, and the field's other message otherwise. |
| StudentForm.ValidateOf | student/src/Components/StudentForm.jsx:26-49 | `validateForm` builds its map by recording the four rules' outcomes in turn: name, email, course, phone. |
| StudentForm.ValidateEmptyByFields | student/src/Components/StudentForm.jsx:54-61 | The map is empty exactly when none of the four fields has an entry. |
| StudentForm.ValidateEmptyIff | student/src/Components/StudentForm.jsx:61 | Validation passes exactly when: the trimmed name has at least two UTF-16 units, the email matches the regex, the course is not blank, and the phone strips to ten digits. |
| StudentForm.ValidateFieldIndependent | student/src/Components/StudentForm.jsx:29-49 | A field's entry, and its wording, depend on that field's value alone. |
| StudentForm.BlankFormHasFourErrors | student/src/Components/StudentForm.jsx:26-49 | A blank form gets all four "required" messages at once, with no short-circuit. |
| StudentForm.ExampleTwoErrors | student/src/Components/StudentForm.jsx:26-49 | "Al", "bad-email", "CS", "12345" gives exactly the email and phone errors. |
| StudentForm.ExampleAccepted | student/src/Components/StudentForm.jsx:26-49 | "Alice Smith", "a@b.com", "CS", "(555) 123-4567" passes validation. |
| StudentForm.PlainNameAccepted | student/src/Components/StudentForm.jsx:29-33 | A name of at least two characters of the Basic Multilingual Plane, with non-space ends, passes the name rule. So "Al" is already long enough. |
| StudentForm.EmailWithoutAt | student/src/Components/StudentForm.jsx:35-39 | Any email that is not blank and contains no '@' gets "Email is invalid". |
| StudentForm.ExampleEmailGood | student/src/Components/StudentForm.jsx:37 | "a@b.com" is accepted. |
| StudentForm.ExampleCourseCS | student/src/Components/StudentForm.jsx:41 | "CS" is accepted as a course. |
| StudentForm.DigitsNotTen | student/src/Components/StudentForm.jsx:45-49 | Any nonempty phone made only of digits, whose length is not ten, gets "Phone must be 10 digits". |
| StudentForm.ExamplePhoneFormatted | student/src/Components/StudentForm.jsx:47 | Brackets, a space and a dash are stripped before the ten digits are counted. |
| StudentForm.DigitsOfBracketedArea | student/src/Components/StudentForm.jsx:47 | An area code between characters that are not digits, as in "(555) ", strips to its digits. |
| StudentForm.DigitsOfDashedNumber | student/src/Components/StudentForm.jsx:47 | Two digit groups joined by a dash, as in "123-4567", strip to the digits of both. |
| StudentForm.AsObject | student/src/Components/StudentForm.jsx:6-11 | The object handed to `onSubmit` has exactly the keys name, email, course and phone, each holding its field's value. |
| StudentForm.Form.constructor | student/src/Components/StudentForm.jsx:6-12 | A new form starts with four empty fields and no errors. |
| Remote.GetOrEmpty | student/src/Components/StudentForm.jsx:18-21 | `student.name \|\| ''` reads the value under the key when it is present, and '' when it is missing. |
| StudentForm.Form.Seed | student/src/Components/StudentForm.jsx:14-24 | A present student replaces every field with its value, a missing value reading as ''. No student leaves the fields unchanged. The errors are untouched. |
| StudentForm.Form.ShownError | student/src/Components/StudentForm.jsx:176 | A message shows under a field exactly when the field's error is present and not '', and it is that error. |
| StudentForm.Form.ValidateForm | student/src/Components/StudentForm.jsx:26-62 | The form stays well formed. The stored errors are `Validate` of the current data. The result is true exactly when the map is empty, that is, exactly when the draft is acceptable. One toast is shown exactly on failure. |
| StudentForm.Form.HandleChange | student/src/Components/StudentForm.jsx:64-78 | Only the changed field's value changes. A non-empty error of that field is blanked, but its key stays. No other error changes, and no message shows under that field afterwards. |
| StudentForm.Form.HandleSubmit | student/src/Components/StudentForm.jsx:80-85 | The form validates. The result is true exactly when no error is stored. `onSubmit` receives the current data exactly when the draft is acceptable. |
| StudentForm.SubmitBlank | student/src/Components/StudentForm.jsx:26-85 | Submitting an untouched form gives four "required" errors, one toast and no `onSubmit` call. |
| StudentForm.SubmitBlankThenType | student/src/Components/StudentForm.jsx:64-85 | After the blank submit, typing a name blanks only the name's message. The four errors, the toast and the absence of an `onSubmit` call are as after the submit. |
| StudentApi.DigitRun | student/src/api/studentApi.jsx:35 | The digit run never runs past the end of the string. |
| StudentApi.DigitRunLongest | student/src/api/studentApi.jsx:35 | Every character of the run is a digit of the radix, and the character just after it is not. |
| StudentApi.ParseUnsigned | student/src/api/studentApi.jsx:35 | The unsigned reader gives NaN exactly when there is no digit to read: after a "0x" or "0X" prefix, no hexadecimal digit follows it; otherwise, the string does not start with a decimal digit. |
| StudentApi.ParseInt | student/src/api/studentApi.jsx:35 | `parseInt` of an all-whitespace string is NaN. A number is read only when something other than whitespace is left, and a negative number only after a '-' that follows the whitespace. |
| StudentApi.DigitRunStops | student/src/api/studentApi.jsx:35 | `parseInt` reads a digit run up to the first character that is not a digit of the radix. |
| StudentApi.ParseIntSigned | student/src/api/studentApi.jsx:35 | Without leading whitespace, `parseInt` reads the unsigned number after an optional '+' or '-', and negates it for '-'. |
| StudentApi.NatToString | student/src/api/studentApi.jsx:38 | `toString` of a natural number is a nonempty string of decimal digits. |
| StudentApi.IntToString | student/src/api/studentApi.jsx:38 | `toString` of an integer is nonempty, and starts with '-' exactly when the integer is negative. |
| StudentApi.NatToStringDigits | student/src/api/studentApi.jsx:38 | `toString` of a natural number is a nonempty string of decimal digits that denotes the number. It starts with '0' only for 0. |
| StudentApi.ParseUnsignedOfNumeral | student/src/api/studentApi.jsx:35-38 | The unsigned reader takes a whole numeral up to the first character that cannot continue it. |
| StudentApi.ParseIntOfNumeral | student/src/api/studentApi.jsx:35-38 | `parseInt(String(i) + rest)` is `i` when `rest` does not start with a digit. The one exception is "0" followed by 'x' or 'X', which starts a hexadecimal prefix. |
| StudentApi.ParseIntToString | student/src/api/studentApi.jsx:35-38 | `parseInt` reads back every integer that `toString` writes. |
| StudentApi.ParseIntSkipsSpaces | student/src/api/studentApi.jsx:35 | Leading whitespace does not change what `parseInt` reads. |
| StudentApi.LeadingSpacesPrefix | student/src/api/studentApi.jsx:35 | A whitespace prefix adds its length to the skipped run. |
| StudentApi.ParseIntExampleTrailing | student/src/api/studentApi.jsx:35 | `parseInt("12ab")` is 12. |
| StudentApi.ParseIntExampleSpaceSign | student/src/api/studentApi.jsx:35 | `parseInt(" -7")` is -7. |
| StudentApi.ParseIntExampleHex | student/src/api/studentApi.jsx:35 | `parseInt("0x1A")` is 26. |
| StudentApi.ParseIntExampleNaN | student/src/api/studentApi.jsx:35 | `parseInt("abc")` and `parseInt("")` are NaN. |
| StudentApi.IdValue | student/src/api/studentApi.jsx:35 | `parseInt(student.id) \|\| 0` is the parsed number when the id is present and parses. It is 0 when the id is missing or NaN. |
| StudentApi.MaxIdOf | student/src/api/studentApi.jsx:35 | `Math.max` over the id values of a nonempty list is at least every one of them. |
| StudentApi.MaxIdOfIsMaximum | student/src/api/studentApi.jsx:35 | `Math.max` over the id values is one of them. |
| StudentApi.MaxId | student/src/api/studentApi.jsx:34-36 | The maximum is at least every id value in the list, and an empty list gives 0. |
| StudentApi.NextId | student/src/api/studentApi.jsx:38 | The generated id parses back to one more than the maximum. |
| StudentApi.NextIdMeaning | student/src/api/studentApi.jsx:34-38 | The generated id parses to a number greater than every id value in the list. For an empty list that number is 1. Otherwise it is one more than some id value, with no floor at zero. |
| StudentApi.NextIdOfEmpty | student/src/api/studentApi.jsx:34-38 | An empty list yields "1". |
| StudentApi.NextIdPermutation | student/src/api/studentApi.jsx:34-36 | The generated id does not depend on the order of the list. |
| StudentApi.MaxIdPermutation | student/src/api/studentApi.jsx:34-36 | The maximum id value does not depend on the order of the list. |
| StudentApi.NextIdExampleTwo | student/src/api/studentApi.jsx:34-38 | Ids "3" and "7" yield "8". |
| StudentApi.NextIdExampleNegative | student/src/api/studentApi.jsx:34-38 | A lone id "-5" yields "-4". |
| StudentApi.NextIdExampleNonNumeric | student/src/api/studentApi.jsx:35 | A non-numeric id and a missing one count as 0, which yields "1". |
| StudentApi.Payload | student/src/api/studentApi.jsx:42-48 | The posted object holds the generated id under "id", and the four student fields of `studentData` unchanged. It holds nothing else. |
| StudentApi.PayloadComplete | student/src/api/studentApi.jsx:42-48 | When `studentData` has all four fields, the body has exactly the keys id, name, email, course and phone. |
| StudentApi.PayloadIgnoresExtras | student/src/api/studentApi.jsx:42-48 | Extra input fields are dropped, including a caller-supplied "id". |
| StudentApi.AddStudent | student/src/api/studentApi.jsx:26-57 | A POST is issued exactly when the list was fetched and is not null, and the body posted is the payload with the next id for that list. A failed fetch is rethrown with its status. A null list fails with no response. Once a body is posted, the call settles as the POST does. |
| StudentApi.AddStudentPostsFreshId | student/src/api/studentApi.jsx:31-48 | When a body is posted, its id is `(maxId + 1).toString()` and parses back to exactly one more than the largest listed id value. That puts it above every listed id value. Its other keys are the caller's four fields. |
| StudentsPage.RemoveById | student/src/Pages/Students.jsx:59 | The filter never grows the list. Every record it keeps was in the list, and none of them has the id. |
| StudentsPage.RemoveByIdAppend | student/src/Pages/Students.jsx:59 | Filtering a concatenation filters each part, so the kept records keep their relative order. |
| StudentsPage.RemoveByIdCounts | student/src/Pages/Students.jsx:59 | Every copy of a record with the id is removed. Every other record is kept as many times as it occurred. |
| StudentsPage.RemoveByIdMembers | student/src/Pages/Students.jsx:59 | No record with the id remains. The records left are exactly the earlier ones whose id is not the one deleted. A missing id reads as `undefined`, so it matches only an `undefined` argument. |
| StudentsPage.RemoveByIdAbsent | student/src/Pages/Students.jsx:59 | Deleting an id that no record carries leaves the list equal to before. |
| StudentsPage.RemoveByIdIdempotent | student/src/Pages/Students.jsx:59 | Filtering twice is filtering once. |
| StudentsPage.RemoveByIdShorter | student/src/Pages/Students.jsx:59 | The list never grows. It keeps its length exactly when no record has the id. |
| StudentsPage.RemoveUndefinedId | student/src/Pages/Students.jsx:59 | Deleting a record that has no id filters with `undefined`, which removes every record without an id and keeps exactly those that have one. |
| StudentsPage.EditPath | student/src/Pages/Students.jsx:53 | The edit path is "/edit-student/" followed by the id, or by "undefined" when the record has no id. |
| StudentsPage.Page.constructor | student/src/Pages/Students.jsx:8-9 | A new page has an empty list and is loading. |
| StudentsPage.Page.FetchStudents | student/src/Pages/Students.jsx:16-48 | A successful fetch sets the list to the data, or to [] for null. A failed fetch sets [] and opens the load-failure dialog, without rethrowing. `loading` is false afterwards on every path. |
| StudentsPage.Page.HandleDelete | student/src/Pages/Students.jsx:56-69 | `deleteStudent(id)` is called, with an id that may be `undefined`. Only on success is the list replaced by its filter, which leaves no record with the id. On failure the list is unchanged and the delete-failure dialog opens. |
| StudentsPage.Page.HandleEdit | student/src/Pages/Students.jsx:51-54 | The page navigates to "/edit-student/" followed by the id, or by "undefined" for a record without one. |
| StudentsPage.LoadThenDelete | student/src/Pages/Students.jsx:16-69 | Loading two records and deleting the one with id "1" leaves the other record, with no dialog and `loading` false. |
| StudentsPage.LoadFails | student/src/Pages/Students.jsx:35-47 | A failed load shows an empty list and exactly one error dialog. |
| EditStudentPage.UpdateErrorMessage | student/src/Pages/EditStudent.jsx:104-109 | 404 gives the not-found message and 400 the invalid-data message. Any other status, including no response, gives the generic message. Each holds in both directions. |
| EditStudentPage.Page.constructor | student/src/Pages/EditStudent.jsx:10-12 | A new page has no student, is loading and is not submitting. |
| EditStudentPage.Page.View | student/src/Pages/EditStudent.jsx:193-245 | The loading view shows exactly while `loading` is true. The form shows exactly when loading is over and a student is stored, and it shows that student. Otherwise the not-found view shows. |
| EditStudentPage.Page.FetchStudent | student/src/Pages/EditStudent.jsx:18-52 | A record that is found is stored. A missing record opens the not-found dialog and goes back to "/students". So does a failed call, with the load-failure dialog. In both failure cases `student` is left as it was. `loading` is false on every path. |
| EditStudentPage.Page.HandleSubmit | student/src/Pages/EditStudent.jsx:54-120 | A declined confirmation makes no update call, no navigation and no dialog. A confirmed one calls `updateStudent(id, data)` and navigates to "/students" only on success. On failure it opens the dialog for the status. `submitting` is false on every path. |
| EditStudentPage.Page.HandleBack | student/src/Pages/EditStudent.jsx:122-137 | The page leaves for "/students" only when the user confirms. |
| EditStudentPage.OpenMissing | student/src/Pages/EditStudent.jsx:18-52 | Opening an unknown id ends on the not-found view after one navigation to "/students", with exactly one dialog. This holds whether the lookup resolves to nothing (the not-found dialog) or is rejected, for example with a 404 (the load-failure dialog). |
| EditStudentPage.EditRejected | student/src/Pages/EditStudent.jsx:18-120 | After a record loads, a confirmed edit that is rejected with 404 keeps the form on screen. It makes one update call, no navigation, and opens the not-found message. |

## Left out

- **The HTTP layer.** A call's outcome is an input:
  - the axios instance, base URL, headers and timeout (student/src/api/studentApi.jsx:3-12);
  - the bodies of `getStudents`, `updateStudent`, `deleteStudent` and `getStudentById`.
- **Dialogs, toasts and console logging.** SweetAlert2 dialogs and react-toastify toasts are recorded only as the text of an error dialog or a toast. Loading, success and confirmation dialogs are inputs or are not recorded, and confirm/cancel answers are booleans. Navigation that follows a dialog's `.then` is recorded as happening when the handler runs.
- **Concurrency.** Interleavings of concurrent handlers, stale closures over `students`, and React's batching of state updates are not modelled: every handler runs to completion against the current state. In particular, two concurrent creates can compute the same next id. That is a known limitation of the allocation scheme, not a property of this model.
- **JSON values.** JSON values other than strings are not modelled: a record is a map from keys to strings, ids included. An id taken from a record (the argument of delete and edit) is a string or `undefined`. A response body that is neither null nor a list (for `getStudents`) or an object (for `getStudentById`) is not modelled.
- **Number precision.** `parseInt`, `Math.max` and `toString` work on unbounded integers. IEEE-754 doubles beyond 2^53 and the exponent notation of very large numbers are not modelled. Nor is the engine's limit on the number of arguments to a spread `Math.max`.
- **-0 and `|| 0`.** `parseInt("-0")` gives -0, and `|| 0` turns it into 0. This is equal to the model's 0.
- **handleRefresh.** `handleRefresh` of the Students page (student/src/Pages/Students.jsx:71-82) is left out. It starts `fetchStudents` without awaiting it and then opens a success dialog. Its state effect is that of `FetchStudents`, and its dialog falls under the point on dialogs above.
- **The `disabled` prop.** The edit page passes `disabled={submitting}` (student/src/Pages/EditStudent.jsx:231), and the form puts it on every input and on the submit button (student/src/Components/StudentForm.jsx:174-229). It stops typing and a second submit while `updateStudent` is pending. That guard is left out together with concurrency: every handler runs to completion, so no overlapping submit is modelled.
- **Presentation.** The `buttonText` prop, all styling and the hover handlers are left out.
- **Browser form validation.** The `<form>` (student/src/Components/StudentForm.jsx:163) has no `noValidate`, and the email input has `type="email"` (student/src/Components/StudentForm.jsx:182). A browser's own constraint validation can therefore block a submit before `handleSubmit` runs, and it strips line breaks and surrounding whitespace from the email value. `Form.HandleSubmit` models the handler alone, on the value as stored.
- **Context files.** They are not part of this model:
  - student/src/Components/StudentList.jsx: rendering and resize listeners. Its name-confirmed delete relies on a dialog library's validation callbacks.
  - student/src/Pages/AddStudent.jsx: it arranges dialogs around `addStudent`. The comment at its line 52 promises a form reset, but `StudentForm` never resets, so none is modelled.
  - student/src/PublicPages/Navbar.jsx, student/src/PublicPages/Backbutton.jsx and student/src/App.js: layout and routing.
- StudentForm.Form.Seed: the effect's dependency on `student` is not modelled. The model applies it once per call, not on every change of the prop's identity.
- StudentApi.AddStudent: the POST outcome is an input even when no POST is made. In that case it is ignored, and `r.posted` records whether the POST happened.
