/**
 * The admin's professors list: loading the list, showing and hiding one
 * professor's courses, deleting a professor, and the edit dialog that
 * updates one entry in place.
 */
module ProfessorsList {
  import opened Js
  import opened UserLists
  import opened ProfessorCourses

  const FetchProfessorsFailure := "Failed to fetch professors"
  const FetchCoursesFailure := "Failed to fetch professor courses"
  const UpdateFailure := "Failed to update professor"
  const UnknownError := "Unknown error"
  /** "The professor is enrolled in a course" (with its trailing space): every refused delete says this. */
  const DeleteRefusal := "الدكتور مسجل في كورس "
  const ShowCoursesLabel := "Show Courses"
  const HideCoursesLabel := "Hide Courses"

  /** The properties of the edit form. */
  const EditKeys: set<string> := {"fullName", "email", "userName", "emailConfirmed", "specialization"}

  /** The edit form before any professor has been opened. */
  const InitialForm: JsObject := map[
    "fullName" := Str(""), "email" := Str(""), "userName" := Str(""),
    "emailConfirmed" := Bool(false), "specialization" := Str("")]

  // ---------------------------------------------------------------------
  // The course lines under a selected professor
  // ---------------------------------------------------------------------

  /** `فئة: ${theoreticalN}`. */
  function TheoryPart(n: int): string {
    "فئة: " + IntToString(n)
  }

  /** `زمرة: ${practicalN}`. */
  function PracticalPart(n: int): string {
    "زمرة: " + IntToString(n)
  }

  /** The `hoursDisplay` string of one course. */
  function HoursDisplay(c: ProfessorCourse): string {
    HoursLabel(c, TheoryPart(c.theoreticalN), PracticalPart(c.practicalN))
  }

  /** The text of one course's list item: its name, then ` - ` and the hours when there are any. */
  function CourseLine(c: ProfessorCourse): string {
    c.courseName + (if HoursDisplay(c) != "" then " - " + HoursDisplay(c) else "")
  }

  lemma TheoryPartWords(n: int)
    ensures Includes(TheoryPart(n), TheoryWord) && CharFree(TheoryPart(n), PracticalWord[0])
  {
    assert TheoryPart(n)[0..] == TheoryPart(n);
    assert TheoryWord <= TheoryPart(n)[0..];
  }

  lemma PracticalPartWords(n: int)
    ensures Includes(PracticalPart(n), PracticalWord) && CharFree(PracticalPart(n), TheoryWord[0])
  {
    assert PracticalPart(n)[0..] == PracticalPart(n);
    assert PracticalWord <= PracticalPart(n)[0..];
  }

  /**
   * The label holds "فئة: N" exactly when `theoreticalN > 0` and "زمرة: N"
   * exactly when `practicalN > 0`, theory first and joined by " / "; the
   * ` - ` suffix is added only when the label is not empty.
   */
  lemma CourseLineParts(c: ProfessorCourse)
    ensures Includes(HoursDisplay(c), TheoryWord) <==> c.theoreticalN > 0
    ensures Includes(HoursDisplay(c), PracticalWord) <==> c.practicalN > 0
    ensures c.theoreticalN > 0 && c.practicalN > 0 ==>
      HoursDisplay(c) == TheoryPart(c.theoreticalN) + HoursSeparator + PracticalPart(c.practicalN)
    ensures CourseLine(c) == c.courseName <==> c.theoreticalN <= 0 && c.practicalN <= 0
  {
    TheoryPartWords(c.theoreticalN);
    PracticalPartWords(c.practicalN);
    HoursLabelMentions(c, TheoryPart(c.theoreticalN), PracticalPart(c.practicalN));
    if HoursDisplay(c) != "" {
      assert |CourseLine(c)| > |c.courseName|;
    }
  }

  /** The list key as written, `professorCourseId || professorCourseId`: the fallback is the same property. */
  function CourseKeyAsWritten(c: ProfessorCourse): (key: JsValue)
    ensures key == c.professorCourseId
  {
    if Truthy(c.professorCourseId) then c.professorCourseId else c.professorCourseId
  }

  /**
   * Two courses the server lists without a professor-course id collide on the
   * key as written, whatever their course ids; the fallback to the course id
   * (`ProfessorCourses.CourseKey`) tells them apart.
   */
  lemma CourseKeyAsWrittenCollides()
    ensures var c := ProfessorCourse(Null, Num(1), "A", 2, 0);
            var d := ProfessorCourse(Null, Num(2), "B", 0, 2);
            CourseKeyAsWritten(c) == CourseKeyAsWritten(d) && CourseKey(c) != CourseKey(d)
  {
  }

  // ---------------------------------------------------------------------
  // The page's state and its handlers
  // ---------------------------------------------------------------------

  class ProfessorsListPage {
    var professors: seq<JsObject>
    var loading: bool
    var error: Option<string>
    /** The entry whose edit dialog is open, if any. */
    var editingProfessor: Option<JsObject>
    var formData: JsObject
    var updating: bool
    /** The professor whose courses are shown; `null` when none is. */
    var selectedProfessorId: JsValue
    var professorCourses: seq<ProfessorCourse>
    var coursesLoading: bool
    var coursesError: Option<string>
    /** The messages passed to `alert`, oldest first. */
    var alerts: seq<string>

    constructor ()
      ensures professors == [] && loading && error == None
      ensures editingProfessor == None && formData == InitialForm && !updating
      ensures selectedProfessorId == Null && professorCourses == [] && !coursesLoading && coursesError == None
      ensures alerts == []
      ensures !ShowsCourses() && CoursesButtonLabel(Null) == HideCoursesLabel
    {
      professors := [];
      loading := true;
      error := None;
      editingProfessor := None;
      formData := InitialForm;
      updating := false;
      selectedProfessorId := Null;
      professorCourses := [];
      coursesLoading := false;
      coursesError := None;
      alerts := [];
    }

    /** The course panel is rendered while the selection is truthy. */
    predicate ShowsCourses()
      reads this
    {
      Truthy(selectedProfessorId)
    }

    /** The caption of a row's course button. */
    function CoursesButtonLabel(userId: JsValue): (caption: string)
      reads this
      ensures caption == HideCoursesLabel <==> selectedProfessorId == userId
      ensures caption == ShowCoursesLabel <==> selectedProfessorId != userId
    {
      if selectedProfessorId == userId then HideCoursesLabel else ShowCoursesLabel
    }

    /** Loads the list; a failure keeps the entries already shown. */
    method FetchProfessors(reply: Response<seq<JsObject>>)
      modifies this
      ensures !loading
      ensures reply.Ok? ==> professors == reply.body && error == None
      ensures !reply.Ok? ==>
        professors == old(professors) && error == Some(CaughtMessage(reply, FetchProfessorsFailure, UnknownError))
      ensures editingProfessor == old(editingProfessor) && formData == old(formData) && updating == old(updating)
      ensures selectedProfessorId == old(selectedProfessorId) && professorCourses == old(professorCourses)
      ensures coursesLoading == old(coursesLoading) && coursesError == old(coursesError) && alerts == old(alerts)
    {
      loading := true;
      error := None;
      if reply.Ok? {
        professors := reply.body;
      } else {
        error := Some(CaughtMessage(reply, FetchProfessorsFailure, UnknownError));
      }
      loading := false;
    }

    /**
     * The row's course button. For the professor already selected it hides
     * the courses without a request; otherwise the request goes out
     * (`requested`) and `reply` is its answer: the courses and the selection
     * on success, no selection and no courses on failure.
     */
    method FetchCourses(professorId: JsValue, reply: Response<seq<ProfessorCourse>>) returns (requested: bool)
      modifies this
      ensures requested <==> old(selectedProfessorId) != professorId
      ensures !requested ==> selectedProfessorId == Null && professorCourses == []
      ensures !requested ==> coursesLoading == old(coursesLoading) && coursesError == old(coursesError)
      ensures requested ==> !coursesLoading
      ensures !requested ==> !ShowsCourses()
      ensures !requested && professorId != Null ==> CoursesButtonLabel(professorId) == ShowCoursesLabel
      ensures requested && reply.Ok? ==>
        CoursesButtonLabel(professorId) == HideCoursesLabel && (ShowsCourses() <==> Truthy(professorId))
      ensures requested && !reply.Ok? ==> !ShowsCourses()
      ensures requested && reply.Ok? ==>
        selectedProfessorId == professorId && professorCourses == reply.body && coursesError == None
      ensures requested && !reply.Ok? ==>
        && selectedProfessorId == Null && professorCourses == []
        && coursesError == Some(CaughtMessage(reply, FetchCoursesFailure, UnknownError))
      ensures professors == old(professors) && loading == old(loading) && error == old(error)
      ensures editingProfessor == old(editingProfessor) && formData == old(formData) && updating == old(updating)
      ensures alerts == old(alerts)
    {
      if selectedProfessorId == professorId {
        selectedProfessorId := Null;
        professorCourses := [];
        return false;
      }
      requested := true;
      coursesLoading := true;
      coursesError := None;
      if reply.Ok? {
        professorCourses := reply.body;
        selectedProfessorId := professorId;
      } else {
        coursesError := Some(CaughtMessage(reply, FetchCoursesFailure, UnknownError));
        professorCourses := [];
        selectedProfessorId := Null;
      }
      coursesLoading := false;
    }

    /**
     * The row's delete button: `confirmed` is the answer to the confirmation
     * dialog and `reply` the server's answer to the delete request.
     */
    method HandleDelete(userId: JsValue, confirmed: bool, reply: Response<()>)
      modifies this
      ensures !confirmed ==> unchanged(this)
      ensures confirmed && reply.Ok? ==> professors == RemoveUser(old(professors), userId) && alerts == old(alerts)
      ensures confirmed && reply.Ok? && userId == old(selectedProfessorId) ==>
        selectedProfessorId == Null && professorCourses == []
      ensures !(confirmed && reply.Ok? && userId == old(selectedProfessorId)) ==>
        selectedProfessorId == old(selectedProfessorId) && professorCourses == old(professorCourses)
      ensures confirmed && !reply.Ok? ==>
        professors == old(professors) && alerts == old(alerts) + [ThrownMessage(reply, DeleteRefusal)]
      ensures loading == old(loading) && error == old(error)
      ensures editingProfessor == old(editingProfessor) && formData == old(formData) && updating == old(updating)
      ensures coursesLoading == old(coursesLoading) && coursesError == old(coursesError)
    {
      if !confirmed {
        return;
      }
      if !reply.Ok? {
        alerts := alerts + [ThrownMessage(reply, DeleteRefusal)];
        return;
      }
      professors := RemoveUser(professors, userId);
      if userId == selectedProfessorId {
        selectedProfessorId := Null;
        professorCourses := [];
      }
    }

    /**
     * Opens the edit dialog for a row: the dialog keeps the row's id and
     * fields, and the form is filled from them.
     */
    method HandleEdit(professor: JsObject)
      modifies this
      ensures editingProfessor == Some(FormFrom(professor, EditKeys + {UserIdKey}))
      ensures formData == FormFrom(professor, EditKeys)
      ensures professors == old(professors) && loading == old(loading) && error == old(error) && updating == old(updating)
      ensures selectedProfessorId == old(selectedProfessorId) && professorCourses == old(professorCourses)
      ensures coursesLoading == old(coursesLoading) && coursesError == old(coursesError) && alerts == old(alerts)
    {
      editingProfessor := Some(FormFrom(professor, EditKeys + {UserIdKey}));
      formData := FormFrom(professor, EditKeys);
    }

    /** One input of the edit dialog changes; only its property of the form changes. */
    method OnChange(e: InputEvent)
      modifies this
      ensures formData == UserLists.OnChange(old(formData), e)
      ensures editingProfessor == old(editingProfessor) && updating == old(updating)
      ensures professors == old(professors) && loading == old(loading) && error == old(error)
      ensures selectedProfessorId == old(selectedProfessorId) && professorCourses == old(professorCourses)
      ensures coursesLoading == old(coursesLoading) && coursesError == old(coursesError) && alerts == old(alerts)
    {
      formData := UserLists.OnChange(formData, e);
    }

    /** The dialog's Cancel button, or a click outside it: the dialog closes and the form is kept. */
    method CloseEdit()
      modifies this
      ensures editingProfessor == None && formData == old(formData) && updating == old(updating)
      ensures professors == old(professors) && loading == old(loading) && error == old(error)
      ensures selectedProfessorId == old(selectedProfessorId) && professorCourses == old(professorCourses)
      ensures coursesLoading == old(coursesLoading) && coursesError == old(coursesError) && alerts == old(alerts)
    {
      editingProfessor := None;
    }

    /**
     * Submits the edit dialog, which is only rendered while a professor is
     * being edited. The request body (`sent`) is the form with the edited
     * professor's id; on success the entries with that id become exactly
     * that body and the dialog closes.
     */
    method HandleUpdateSubmit(reply: Response<()>) returns (sent: JsObject)
      requires editingProfessor.Some?
      modifies this
      ensures sent == Entry(UserId(old(editingProfessor).value), old(formData))
      ensures !updating && formData == old(formData)
      ensures reply.Ok? ==>
        && professors == ReplaceUser(old(professors), UserId(old(editingProfessor).value), sent)
        && editingProfessor == None && alerts == old(alerts)
      ensures !reply.Ok? ==>
        && professors == old(professors) && editingProfessor == old(editingProfessor)
        && alerts == old(alerts) + [ThrownMessage(reply, UpdateFailure)]
      ensures loading == old(loading) && error == old(error)
      ensures selectedProfessorId == old(selectedProfessorId) && professorCourses == old(professorCourses)
      ensures coursesLoading == old(coursesLoading) && coursesError == old(coursesError)
    {
      updating := true;
      var userId := UserId(editingProfessor.value);
      sent := Entry(userId, formData);
      if reply.Ok? {
        professors := ReplaceUser(professors, userId, sent);
        editingProfessor := None;
      } else {
        alerts := alerts + [ThrownMessage(reply, UpdateFailure)];
      }
      updating := false;
    }
  }
}
