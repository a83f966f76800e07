# Attendance portal pages — a Dafny model

This project models the decision logic inside nine React pages of an academic
attendance portal. The portal has admin, professor and student views over a
remote API. The model covers:

- the admin's "Create Professor" form and the public sign-up form: their
  validators and submit gates;
- the spreadsheet import that turns parsed rows into candidate students;
- the professor's per-student attendance entry;
- the admin's professors and students lists: delete by id, update by id, the
  edit dialog, and showing or hiding a professor's courses;
- the teaching-load labels and link parameters of the professor's course list;
- the status flags, colours and alert lists that the student summary page and
  the course page derive from the status strings the server returns.

On seven of the pages (every page except the spreadsheet import and the
professor's course list), the React state is a class whose fields are the
page's `useState` variables, and each modelled event handler is a method with a
`modifies` clause. The spreadsheet import and the course list only derive
values, so they are functions. A handler
is treated as one atomic step. The answer of each `fetch` it makes is a
parameter: `Js.Response` (a 2xx body, a non-2xx status, or a thrown error's
message), or a page-specific reply where the page reads more of the body.

Pure derivations are functions, with lemmas relating them to independent
statements of what they mean:

- the validators;
- the row mapping;
- the list filter and map;
- the labels, flags and colours.

The `Js` module holds the slice of JavaScript semantics the pages depend on:

- truthiness;
- `String(n)`;
- `trim` and the `\s` class, over the ECMAScript WhiteSpace and LineTerminator
  code points;
- `includes`, `join` and UTF-16 `length`;
- `err.message || fallback`.

The regular expression `\S+@\S+\.\S+` has two definitions:

- `CreateProfessor.MatchesEmailPattern` states, over match positions, what the
  unanchored test accepts;
- `CreateProfessor.EmailTest` decides it by a left-to-right scan, and is proved
  equal to it.

The absence-eligibility arithmetic (weights, thresholds, the barred and warning
decision) is not part of these pages. The server computes it, and the pages
only read the `status` strings it returns.

The two pages classify the same status strings differently:

- the course page (`src/pages/Professor/CourseDetails.jsx:65`) tests a status
  for exact equality with "محروم";
- the student summary page (`src/pages/Professor/StudentAttendanceSummary.jsx:28`)
  tests whether a status contains "ممنوع".

`CourseDetails.StatusWordsDiverge` proves the consequence. A student marked
"محروم" is red with a badge on the course page, but green with no badge on the
summary page. The reverse holds for "ممنوع".

## Model

| member | source | states |
|---|---|---|
| Js.TrimIsInnerSlice | src/pages/Admin/CreateProfessor.jsx:20 | `trim()` returns a slice of its input with only whitespace cut from either end, and the result has no whitespace at either end |
| Js.BlankIffAllSpace | src/pages/Admin/CreateProfessor.jsx:20 | a trimmed string is empty exactly when every character of the original is whitespace |
| Js.TrimIdempotent | src/pages/Professor/AssignStudentToCourse.jsx:89 | trimming an already trimmed string changes nothing |
| Js.IntToStringInjective | src/pages/Professor/AssignStudentToCourse.jsx:87 | different integers print as different decimal strings |
| Js.Utf16Length | src/pages/Admin/CreateProfessor.jsx:25 | `length` counts UTF-16 code units: never fewer than the characters, and zero only for the empty string |
| Js.CaughtMessage | src/pages/Admin/ProfessorsList.jsx:60-65 | `err.message`, or the fallback: the thrown message when it is not empty, the fallback otherwise, never empty when the fallback is not |
| Js.JoinAppend | src/pages/Professor/Main.jsx:71 | joining a non-empty list with one more part appends the separator and that part, so the parts appear in order one separator apart |
| CreateProfessor.ProfessorForm.With | src/pages/Admin/CreateProfessor.jsx:33 | `{ ...prev, [name]: value }` sets the named field and leaves every other field as it was |
| CreateProfessor.EmailTest | src/pages/Admin/CreateProfessor.jsx:22 | the scan accepts a string exactly when some substring matches `\S+@\S+\.\S+` |
| CreateProfessor.EmailScanIsPattern | src/pages/Admin/CreateProfessor.jsx:22 | the left-to-right scan for an `@` with a non-space before it and a non-space run, `.` and non-space after it is equivalent to the existence of a match |
| CreateProfessor.Validate | src/pages/Admin/CreateProfessor.jsx:17-30 | never reports `submit`; reports fullName exactly when it is blank after trim, email exactly when it has no match of the pattern, password exactly when its length is under 6, and specialization exactly when it is blank after trim |
| CreateProfessor.ValidateMessages | src/pages/Admin/CreateProfessor.jsx:20-27 | an empty email or password gets "required" and a non-empty one the format or length message, never both |
| CreateProfessor.ValidateAcceptsExactly | src/pages/Admin/CreateProfessor.jsx:42-46 | the validator returns no keys exactly when all four field rules hold |
| CreateProfessor.InitialFormFailsEveryRule | src/pages/Admin/CreateProfessor.jsx:3-8 | the all-empty initial form fails on all four fields and on nothing else |
| CreateProfessor.SubmitErrorText | src/pages/Admin/CreateProfessor.jsx:59-67 | a refusal shows the body's message, or the fixed default when there is none, so it is never empty |
| CreateProfessor.CreateProfessorPage.constructor | src/pages/Admin/CreateProfessor.jsx:3-14 | the page starts with the all-empty form, no errors, not submitting and no success message |
| CreateProfessor.CreateProfessorPage.HandleChange | src/pages/Admin/CreateProfessor.jsx:32-37 | changes only the edited field; blanks that field's error if one is showing and leaves every other error alone |
| CreateProfessor.CreateProfessorPage.HandleSubmit | src/pages/Admin/CreateProfessor.jsx:39-71 | a request goes out exactly when the validator finds nothing; otherwise the errors become the validator's and the form is kept; after success the form is the initial one and the success message is set; after failure the errors are exactly `{submit: message}`; submitting is false afterwards |
| Register.RegisterForm.With | src/pages/Register.jsx:17-22 | `{ ...prev, [name]: value }` sets the named field and leaves every other field as it was |
| Register.PreSubmitError | src/pages/Register.jsx:29-40 | the form may be sent exactly when the name is not blank, email and password are not empty, and a "Teacher" has a non-blank specialization; the required-fields message wins when both checks fail |
| Register.NoFormatOrLengthCheck | src/pages/Register.jsx:30 | any non-blank name with any non-empty email and password passes for a non-teacher: whitespace-only emails and one-character passwords included, with no specialization |
| Register.FailureText | src/pages/Register.jsx:51-61 | a refusal shows the body's errors joined by ", ", or the fixed default when that is empty, so it is never empty |
| Register.RegisterPage.constructor | src/pages/Register.jsx:6-14 | the page starts with the empty form, role "Student", not loading and no error |
| Register.RegisterPage.HandleChange | src/pages/Register.jsx:17-22 | changes only the edited field |
| Register.RegisterPage.HandleSubmit | src/pages/Register.jsx:24-65 | sends the form exactly when the pre-submit checks pass; every exit leaves loading false; a validation exit sets the check's message and sends nothing; success navigates to "/student"; a failure sets the failure text |
| AssignStudentToCourse.Cell | src/pages/Professor/AssignStudentToCourse.jsx:87-89 | an index inside the row reads that cell, and one past the end reads `undefined` |
| AssignStudentToCourse.MapRowDefval | src/pages/Professor/AssignStudentToCourse.jsx:78-81 | padding a row and filling its empty cells with "", as the parser's `defval: ""` does, gives the same student record as reading missing cells as `undefined` |
| AssignStudentToCourse.MapRowsFrom | src/pages/Professor/AssignStudentToCourse.jsx:86-97 | one record per row, in order, with row `i` mapped at index `start + i` |
| AssignStudentToCourse.DataRows | src/pages/Professor/AssignStudentToCourse.jsx:84 | `slice(1)` drops exactly the first row and keeps the rest in order |
| AssignStudentToCourse.MapSheetShape | src/pages/Professor/AssignStudentToCourse.jsx:84-86 | the sheet gives max(0, rows − 1) students, and student `i` comes from row `i + 1` numbered `i` |
| AssignStudentToCourse.MapRowFields | src/pages/Professor/AssignStudentToCourse.jsx:87-95 | every record is marked as from the spreadsheet, its name is already trimmed, and its id is the first cell when truthy and `excel-<index>` otherwise |
| AssignStudentToCourse.MapRowEmail | src/pages/Professor/AssignStudentToCourse.jsx:88-93 | the email is "" when the trimmed second cell is empty and otherwise that value followed by "@gmail.com" |
| AssignStudentToCourse.FallbackIdsDistinct | src/pages/Professor/AssignStudentToCourse.jsx:87 | two rows that both fall back to an index-based id get different ids |
| AssignStudentToCourse.AfterUpload | src/pages/Professor/AssignStudentToCourse.jsx:66-99 | with no file the list is unchanged; with a file it is replaced by exactly the students mapped from the sheet (`MapSheet`), not extended |
| AddAttendance.OutcomeMessage | src/pages/Professor/AddAttendance.jsx:57-74 | success gives the success message; a 409 gives the duplicate-date message; any other status gives the generic error because the thrown message is empty; a thrown error gives its own message or the generic error |
| AddAttendance.OutcomeMessageNeverPrompt | src/pages/Professor/AddAttendance.jsx:57-74 | an answer from the server never reads as the prompt or as no message, and reads as success exactly when it was a success |
| AddAttendance.AddAttendancePage.constructor | src/pages/Professor/AddAttendance.jsx:7-11 | no choices and no messages; the date is the given current date |
| AddAttendance.AddAttendancePage.HandleAttendanceClick | src/pages/Professor/AddAttendance.jsx:28-32 | sets only that student's choice and clears only that student's message |
| AddAttendance.AddAttendancePage.HandleSubmit | src/pages/Professor/AddAttendance.jsx:34-75 | with no choice, only that student's message becomes the prompt and nothing is sent; otherwise the request carries the student's current choice and the current date, and only that student's message changes, to the outcome's |
| AddAttendance.AddAttendancePage.ChangeDate | src/pages/Professor/AddAttendance.jsx:88-92 | sets the date, clears every message and keeps every choice |
| UserLists.RemoveUser | src/pages/Admin/ProfessorsList.jsx:90 | the result holds exactly the entries whose `userId` differs from the deleted one, and is no longer than the input |
| UserLists.RemoveUserAppend | src/pages/Admin/ProfessorsList.jsx:90 | filtering a concatenation filters each part in place, so the kept entries stay in their original order |
| UserLists.RemoveAbsentUser | src/pages/Admin/StudentsList.jsx:51 | deleting an id that no entry carries leaves the list as it was |
| UserLists.Entry | src/pages/Admin/ProfessorsList.jsx:131-134 | `{ userId, ...form }` has the form's properties plus `userId`, which carries the given id unless the form overrides it |
| UserLists.ReplaceUser | src/pages/Admin/ProfessorsList.jsx:139-143 | the length is kept; each entry with the id becomes the new entry and every other entry is unchanged |
| UserLists.ReplaceKeepsIds | src/pages/Admin/ProfessorsList.jsx:139-143 | replacing with an entry built for the same id keeps every entry's id |
| UserLists.FormFrom | src/pages/Admin/StudentsList.jsx:58-65 | the form has exactly the listed properties, each copied from the entry (`undefined` when missing) |
| UserLists.OnChange | src/pages/Admin/ProfessorsList.jsx:114-120 | the named property becomes `checked` for a checkbox and `value` otherwise; every other property is unchanged |
| ProfessorCourses.HoursParts | src/pages/Admin/ProfessorsList.jsx:252-254 | the theory part is pushed when `theoreticalN > 0`, the practical part when `practicalN > 0`, and nothing else |
| ProfessorCourses.HoursLabelMentions | src/pages/Admin/ProfessorsList.jsx:252-256 | the joined label mentions the theory word exactly when `theoreticalN > 0` and the practical word exactly when `practicalN > 0`; it is empty exactly when neither is positive; with both, it is theory part, " / ", practical part |
| ProfessorCourses.CourseKey | src/pages/Professor/Main.jsx:75 | the key is the professor-course id when truthy, else the course id |
| ProfessorCourses.CourseKeysDistinct | src/pages/Professor/Main.jsx:75 | two courses without a professor-course id get different keys when their course ids differ |
| Main.HoursDisplayParts | src/pages/Professor/Main.jsx:66-71 | the theory part appears exactly when `theoreticalN > 0`, the practical part exactly when `practicalN > 0`, theory first, joined by " / " |
| Main.ShowsHoursRowIff | src/pages/Professor/Main.jsx:85 | the hours row is rendered exactly when at least one count is positive |
| Main.StudentsType | src/pages/Professor/Main.jsx:98 | the link's `type` is "Theory" exactly when `theoreticalN > 0`, and "Practical" otherwise |
| Main.StudentsTypeMatchesLabel | src/pages/Professor/Main.jsx:98 | the link asks for theory students exactly when the label shows a theory part |
| ProfessorsList.CourseLineParts | src/pages/Admin/ProfessorsList.jsx:252-261 | "فئة: N" appears exactly when `theoreticalN > 0` and "زمرة: N" exactly when `practicalN > 0`, theory first, joined by " / "; the item is the bare course name exactly when neither count is positive |
| ProfessorsList.CourseKeyAsWritten | src/pages/Admin/ProfessorsList.jsx:259 | the key as written is always the professor-course id: its fallback is the same property |
| ProfessorsList.CourseKeyAsWrittenCollides | src/pages/Admin/ProfessorsList.jsx:259 | two courses listed without a professor-course id share a key as written, though the course-id fallback tells them apart |
| ProfessorsList.ProfessorsListPage.constructor | src/pages/Admin/ProfessorsList.jsx:4-23 | an empty list that is loading, no dialog, the empty form, no selection, no courses; the course panel is hidden, yet a row whose `userId` is `null` already reads "Hide Courses" |
| ProfessorsList.ProfessorsListPage.CoursesButtonLabel | src/pages/Admin/ProfessorsList.jsx:223 | a row's button reads "Hide Courses" exactly when that row's id is the selection, and "Show Courses" otherwise; `FetchCourses` states how each click moves it |
| ProfessorsList.ProfessorsListPage.FetchProfessors | src/pages/Admin/ProfessorsList.jsx:26-39 | success replaces the list and clears the error; failure keeps the list and sets the caught message; loading ends false; nothing else changes |
| ProfessorsList.ProfessorsListPage.FetchCourses | src/pages/Admin/ProfessorsList.jsx:46-71 | for the selected professor, deselects and empties the courses without a request; otherwise it requests them; success selects the professor and shows the courses; failure clears the selection and the courses and sets the caught message; after a successful load the clicked row's button reads "Hide Courses", after closing it reads "Show Courses" (for a non-null id), and the panel is shown only after a successful load for a truthy id |
| ProfessorsList.ProfessorsListPage.HandleDelete | src/pages/Admin/ProfessorsList.jsx:74-99 | without confirmation nothing changes; success removes exactly the entries with that id and, only when that id was selected, clears the selection and courses; a refusal alerts the fixed "enrolled in a course" message and keeps the list |
| ProfessorsList.ProfessorsListPage.HandleEdit | src/pages/Admin/ProfessorsList.jsx:102-111 | the dialog opens on the row and the form gets its fullName, email, userName, emailConfirmed and specialization |
| ProfessorsList.ProfessorsListPage.OnChange | src/pages/Admin/ProfessorsList.jsx:114-120 | only the named form property changes |
| ProfessorsList.ProfessorsListPage.CloseEdit | src/pages/Admin/ProfessorsList.jsx:277 | the dialog closes and everything else stays |
| ProfessorsList.ProfessorsListPage.HandleUpdateSubmit | src/pages/Admin/ProfessorsList.jsx:123-150 | sends the form with the edited id; success replaces exactly the entries with that id by that body and closes the dialog; failure alerts and keeps the list and the dialog; updating ends false |
| StudentsList.StudentsListPage.constructor | src/pages/Admin/StudentsList.jsx:4-16 | an empty list that is loading, no dialog and the empty form |
| StudentsList.StudentsListPage.FetchStudents | src/pages/Admin/StudentsList.jsx:19-32 | success replaces the list and clears the error; failure keeps the list and sets the caught message; loading ends false |
| StudentsList.StudentsListPage.HandleDelete | src/pages/Admin/StudentsList.jsx:39-55 | without confirmation nothing changes; success removes exactly the entries with that id; a refusal alerts the fixed "user enrolled in a course" message and keeps the list |
| StudentsList.StudentsListPage.HandleEdit | src/pages/Admin/StudentsList.jsx:58-66 | the dialog opens on the row and the form gets its fullName, email, userName and emailConfirmed |
| StudentsList.StudentsListPage.OnChange | src/pages/Admin/StudentsList.jsx:69-75 | only the named form property changes |
| StudentsList.StudentsListPage.CloseEdit | src/pages/Admin/StudentsList.jsx:169 | the dialog closes and everything else stays |
| StudentsList.StudentsListPage.HandleUpdateSubmit | src/pages/Admin/StudentsList.jsx:78-105 | sends the form with the edited id; success replaces exactly the entries with that id by `{userId, ...formData}` and closes the dialog; failure alerts and keeps the list; updating ends false |
| StudentAttendanceSummary.AnyStatusIncludes | src/pages/Professor/StudentAttendanceSummary.jsx:27-28 | true exactly when some item has a status that contains the word; an item without a status never counts |
| StudentAttendanceSummary.StatusColor | src/pages/Professor/StudentAttendanceSummary.jsx:43-47 | red exactly when the status contains "ممنوع" (checked first); yellow exactly when it contains "تحذير" but not "ممنوع"; green otherwise |
| StudentAttendanceSummary.Alerts | src/pages/Professor/StudentAttendanceSummary.jsx:64-65 | the bell lists exactly the items whose status contains either word |
| StudentAttendanceSummary.AlertsAppend | src/pages/Professor/StudentAttendanceSummary.jsx:64-65 | the bell's list keeps the original order |
| StudentAttendanceSummary.BadgeIffAlerts | src/pages/Professor/StudentAttendanceSummary.jsx:56-65 | the badge condition (either flag) holds exactly when the bell's list is not empty |
| StudentAttendanceSummary.AlertsNeverGreen | src/pages/Professor/StudentAttendanceSummary.jsx:64-72 | every listed alert has a status, drawn red or yellow, never green |
| StudentAttendanceSummary.DisplayStatus | src/pages/Professor/StudentAttendanceSummary.jsx:89 | a missing status shows as "" |
| StudentAttendanceSummary.MissingStatusIsQuiet | src/pages/Professor/StudentAttendanceSummary.jsx:89-99 | a card without a status is green and is never listed under the bell |
| StudentAttendanceSummary.StudentAttendanceSummaryPage.constructor | src/pages/Professor/StudentAttendanceSummary.jsx:10-16 | nothing loaded, no card open, both flags false |
| StudentAttendanceSummary.StudentAttendanceSummaryPage.LoadAttendance | src/pages/Professor/StudentAttendanceSummary.jsx:18-37 | nothing happens without a truthy student id; success stores the summary and both flags are recomputed from it; failure keeps the old summary and sets the caught message |
| StudentAttendanceSummary.StudentAttendanceSummaryPage.VisibleAlerts | src/pages/Professor/StudentAttendanceSummary.jsx:56-65 | while the flags describe the loaded summary, the bell's list is non-empty exactly when the badge shows |
| StudentAttendanceSummary.StudentAttendanceSummaryPage.ToggleExpand | src/pages/Professor/StudentAttendanceSummary.jsx:39-41 | clicking the open card closes it; clicking any other card opens it alone |
| CourseDetails.AnyForbidden | src/pages/Professor/CourseDetails.jsx:65-66 | true exactly when some violator's status equals "محروم" exactly |
| CourseDetails.ViolatorColour | src/pages/Professor/CourseDetails.jsx:159-165 | red exactly for "محروم", yellow exactly for "تحذير", green for anything else |
| CourseDetails.StatusWordsDiverge | src/pages/Professor/CourseDetails.jsx:159-165 | "محروم" is red with a badge here but green with no badge on the summary page; "ممنوع" is the reverse |
| CourseDetails.BadgeNeedsExactStatus | src/pages/Professor/CourseDetails.jsx:65 | any status other than exactly "محروم" raises no badge and is not red |
| CourseDetails.CourseDetailsPage.constructor | src/pages/Professor/CourseDetails.jsx:10-20 | nothing loaded, no course id, panel closed, no badge |
| CourseDetails.CourseDetailsPage.FetchCourseId | src/pages/Professor/CourseDetails.jsx:22-33 | success stores the course id; a failure is only logged, so nothing changes |
| CourseDetails.CourseDetailsPage.FetchStudents | src/pages/Professor/CourseDetails.jsx:35-50 | success replaces the roster and clears the error; failure keeps it and sets the caught message; loading ends false |
| CourseDetails.CourseDetailsPage.LoadAbsenceViolators | src/pages/Professor/CourseDetails.jsx:52-70 | with no truthy course id, only the "not loaded yet" error is set and nothing is requested; success stores the violators and recomputes the badge flag from them; failure keeps them and sets the caught message |
| CourseDetails.CourseDetailsPage.ToggleNotifications | src/pages/Professor/CourseDetails.jsx:104-109 | the violators are reloaded only when the panel opens, never when it closes; the panel flips either way |
| CourseDetails.CourseDetailsPage.DeleteLatest | src/pages/Professor/CourseDetails.jsx:200-214 | after a successful delete the violators are reloaded and the success message is set whatever the reload did; a failed delete sets the fixed error and no success message |
| CourseDetails.CourseDetailsPage.RemoveStudent | src/pages/Professor/CourseDetails.jsx:72-90 | success sets the success message and refetches the roster; failure sets the caught message; the in-progress marker is cleared on every path |

## Left out

- Network and JSON: every `fetch` is replaced by its answer, given as a parameter. URLs, methods and headers are not modelled. Neither are the `console` calls.
- Asynchrony: each handler runs as one atomic step, with the answers to its requests given in advance. Interleavings of overlapping handlers are not modelled. Neither are the intermediate renders while a request is pending ("Loading…", the disabled buttons, the in-progress marker of `removeStudent`).
- Effects: the mount and dependency effects that call `fetchProfessors`, `fetchStudents`, `fetchCourseId`, `loadAttendance` and `loadAbsenceViolators` are not modelled as triggers. Each of those operations is a method a caller invokes.
- Browser dialogs: `window.confirm` is a boolean parameter of the delete handlers. `alert` appends its message to an `alerts` field.
- The clock: the attendance page's default date is a constructor parameter.
- Rendering: JSX, CSS classes and icons are not modelled. Colours are a three-valued `Colour`. The success-message colour test of the attendance page is left out. So are the captions and row keys that make no decision.
- Spreadsheets: XLSX parsing and `FileReader` are not modelled. The model starts from the parsed array of rows.
- Cell values: cells are `undefined`, `null`, booleans, integers or strings. Non-integer numbers and dates are not represented.
- Missing cells: the parser's `defval: ""` fills them with "". `AssignStudentToCourse.Cell` reads a cell past the end as `undefined` instead; `AssignStudentToCourse.MapRowDefval` shows that both give the same records.
- Js.IntToString: prints every integer in full decimal digits. JavaScript numbers are doubles: an integer cell at or above 1e21 prints in exponent form ("1e+21") and integers beyond 2^53 are not exact, so `MapRowEmail` and `IntToStringInjective` describe the model's unbounded integers, not such cells.
- Status values: statuses are strings or missing. A non-string status, on which `includes` would throw, is not represented.
- Strict equality: `===` between primitive values is value equality. `NaN` is not represented.
- ProfessorsList.ProfessorsListPage.HandleUpdateSubmit: requires an open edit dialog, because the form that submits it is only rendered while a professor is being edited. The `TypeError` path of a missing dialog is not modelled.
- StudentsList.StudentsListPage.HandleUpdateSubmit: requires an open edit dialog, for the same reason.
- AssignStudentToCourse: the page's student fetch and `assignStudent` request (src/pages/Professor/AssignStudentToCourse.jsx:18-63) are fetch-and-set plumbing and are not modelled; only the upload's row mapping is.
- Main: the page's `fetchCourses` load (src/pages/Professor/Main.jsx:13-32) and the navigation helper are not modelled; only the label, link and key derivations are.
- AddAttendance: the page's student-list load, whose failure only raises an `alert`, is not modelled.
- Register: the show-password toggle is not modelled, and neither are the HTML `minLength` and `required` attributes, which only the browser enforces.
- Out of scope: the login pages, the placeholder dashboards, routing and layout, and the admin's course pages are not part of this model. They are plumbing with no decision logic.
- The server: the absence-eligibility computation and duplicate-record enforcement are not part of this model. They run on the server, and the pages see only their status strings and the 409 status.

## Findings

| source | as written | input that shows it | evidently intended | confidence | as-written member | corrected member |
|---|---|---|---|---|---|---|
| src/pages/Admin/ProfessorsList.jsx:259 | the course list key falls back from `professorCourseId` to `professorCourseId` itself | two courses of the selected professor listed with `professorCourseId: null` and course ids 1 and 2 get the same key `null` | fall back to `courseId`, as the professor's own course list does (`src/pages/Professor/Main.jsx:75`) | medium, not executed | ProfessorsList.CourseKeyAsWrittenCollides | ProfessorCourses.CourseKeysDistinct |
