/**
 * The professor's view of one course: the enrolled students, unenrolling a
 * student, and the notifications panel listing the students the server
 * reports for their absences, with its badge and per-student colours.
 */
module CourseDetails {
  import opened Js
  import Summary = StudentAttendanceSummary

  /** "Deprived": the status the badge and the red colour look for, compared exactly. */
  const ForbiddenStatus := "محروم"
  /** "Warning", compared exactly. */
  const WarningStatus := "تحذير"
  /** "The course data has not been loaded yet." */
  const NoCourseMessage := "لم يتم تحميل بيانات الكورس بعد."
  /** "Failed to load the absence data." */
  const ViolatorsFailure := "فشل في تحميل بيانات الغياب"
  /** "An error occurred while loading the notifications." */
  const ViolatorsError := "حدث خطأ أثناء تحميل التنبيهات"
  /** "Failed to load the students." */
  const StudentsFailure := "فشل في تحميل الطلاب"
  /** "An error occurred." */
  const GenericError := "حدث خطأ"
  /** "Failed to remove the student from the course." */
  const RemoveFailure := "فشل في حذف الطالب من الكورس"
  /** "An error occurred while removing." */
  const RemoveError := "حدث خطأ أثناء الحذف"
  /** "The student was removed from the course." */
  const RemovedMessage := "تم حذف الطالب من الكورس."
  /** "An error occurred while deleting the absence." */
  const DeleteLatestError := "حدث خطأ عند حذف الغياب"
  /** "The latest absence was deleted successfully." */
  const DeletedLatestMessage := "تم حذف آخر غياب بنجاح."

  /** One student of the absence-violators answer; the counts and percentages are only displayed. */
  datatype Violator = Violator(studentId: JsValue, fullName: string, status: Option<string>)

  /** `violators.some(s => s.status === "محروم")`. */
  function AnyForbidden(violators: seq<Violator>): (b: bool)
    ensures b <==> exists i :: 0 <= i < |violators| && violators[i].status == Some(ForbiddenStatus)
  {
    if violators == [] then false
    else
      assert forall i :: 1 <= i < |violators| ==> violators[i] == violators[1..][i - 1];
      violators[0].status == Some(ForbiddenStatus) || AnyForbidden(violators[1..])
  }

  /** The colour of a violator's status: exact comparisons, "محروم" first. */
  function ViolatorColour(status: Option<string>): (c: Summary.Colour)
    ensures c == Summary.Red <==> status == Some(ForbiddenStatus)
    ensures c == Summary.Yellow <==> status == Some(WarningStatus)
    ensures c == Summary.Green <==> status != Some(ForbiddenStatus) && status != Some(WarningStatus)
  {
    if status == Some(ForbiddenStatus) then Summary.Red
    else if status == Some(WarningStatus) then Summary.Yellow
    else Summary.Green
  }

  /**
   * This page and the student's summary page read different words. The
   * status "محروم" is red with a badge here and green with no badge there; the
   * status "ممنوع" is red with a badge there and green with no badge here.
   */
  lemma StatusWordsDiverge()
    ensures ViolatorColour(Some(ForbiddenStatus)) == Summary.Red
    ensures Summary.StatusColor(ForbiddenStatus) == Summary.Green
    ensures AnyForbidden([Violator(Null, "", Some(ForbiddenStatus))])
    ensures !Summary.HasForbidden([Summary.SummaryItem("", Some(ForbiddenStatus), None, None)])
    ensures ViolatorColour(Some(Summary.ForbiddenWord)) == Summary.Green
    ensures Summary.StatusColor(Summary.ForbiddenWord) == Summary.Red
    ensures !AnyForbidden([Violator(Null, "", Some(Summary.ForbiddenWord))])
    ensures Summary.HasForbidden([Summary.SummaryItem("", Some(Summary.ForbiddenWord), None, None)])
  {
    NotIncludedWithoutFirstChar(ForbiddenStatus, Summary.WarningWord);
    assert !Includes(ForbiddenStatus, Summary.ForbiddenWord) by {
      forall i | 0 <= i <= |ForbiddenStatus| ensures !(Summary.ForbiddenWord <= ForbiddenStatus[i..]) {
        if i == 0 {
          assert Summary.ForbiddenWord[1] != ForbiddenStatus[1];
        }
      }
    }
    assert Summary.ForbiddenWord[0..] == Summary.ForbiddenWord;
    var item := Summary.SummaryItem("", Some(Summary.ForbiddenWord), None, None);
    assert Summary.StatusIncludes(item, Summary.ForbiddenWord);
    assert [item][0] == item;
  }

  /**
   * The badge only counts exact "محروم" statuses: a status that merely
   * contains the word does not raise it.
   */
  lemma BadgeNeedsExactStatus(s: string)
    requires s != ForbiddenStatus
    ensures !AnyForbidden([Violator(Null, "", Some(s))])
    ensures ViolatorColour(Some(s)) != Summary.Red
  {
  }

  class CourseDetailsPage {
    /** The `professorCourseId` route parameter. */
    const professorCourseId: JsValue
    var students: seq<JsObject>
    var loading: bool
    var error: Option<string>
    /** The student whose unenrolment is under way; `null` when none is. */
    var removingId: JsValue
    var successMsg: Option<string>
    var notificationsOpen: bool
    var absenceViolators: seq<Violator>
    var hasForbidden: bool
    /** The course id looked up from the professor-course; `null` until it arrives. */
    var courseId: JsValue

    /** The badge flag always describes the loaded violators. */
    ghost predicate Valid()
      reads this
    {
      hasForbidden == AnyForbidden(absenceViolators)
    }

    constructor (professorCourseId: JsValue)
      ensures Valid()
      ensures this.professorCourseId == professorCourseId
      ensures students == [] && !loading && error == None && removingId == Null && successMsg == None
      ensures !notificationsOpen && absenceViolators == [] && !hasForbidden && courseId == Null
    {
      this.professorCourseId := professorCourseId;
      students := [];
      loading := false;
      error := None;
      removingId := Null;
      successMsg := None;
      notificationsOpen := false;
      absenceViolators := [];
      hasForbidden := false;
      courseId := Null;
    }

    /** Looks up the course id; a failure is only logged, so the id stays as it was. */
    method FetchCourseId(reply: Response<JsValue>)
      requires Valid()
      modifies this
      ensures Valid()
      ensures reply.Ok? ==> courseId == reply.body
      ensures !reply.Ok? ==> courseId == old(courseId)
      ensures students == old(students) && loading == old(loading) && error == old(error)
      ensures removingId == old(removingId) && successMsg == old(successMsg) && notificationsOpen == old(notificationsOpen)
      ensures absenceViolators == old(absenceViolators) && hasForbidden == old(hasForbidden)
    {
      if reply.Ok? {
        courseId := reply.body;
      }
    }

    /** Loads the enrolled students; a failure keeps the list shown before. */
    method FetchStudents(reply: Response<seq<JsObject>>)
      requires Valid()
      modifies this
      ensures Valid()
      ensures !loading
      ensures reply.Ok? ==> students == reply.body && error == None
      ensures !reply.Ok? ==>
        students == old(students) && error == Some(CaughtMessage(reply, StudentsFailure, GenericError))
      ensures removingId == old(removingId) && successMsg == old(successMsg) && notificationsOpen == old(notificationsOpen)
      ensures absenceViolators == old(absenceViolators) && hasForbidden == old(hasForbidden) && courseId == old(courseId)
    {
      loading := true;
      error := None;
      if reply.Ok? {
        students := reply.body;
      } else {
        error := Some(CaughtMessage(reply, StudentsFailure, GenericError));
      }
      loading := false;
    }

    /**
     * Loads the violators. Without a truthy course id it only sets an error
     * and sends nothing; otherwise the request goes out (`requested`) and
     * `reply` is its answer, from which the badge flag is recomputed.
     */
    method LoadAbsenceViolators(reply: Response<seq<Violator>>) returns (requested: bool)
      requires Valid()
      modifies this
      ensures Valid()
      ensures requested <==> Truthy(courseId)
      ensures !requested ==> error == Some(NoCourseMessage)
      ensures requested && reply.Ok? ==>
        error == None && absenceViolators == reply.body && hasForbidden == AnyForbidden(reply.body)
      ensures requested && !reply.Ok? ==> error == Some(CaughtMessage(reply, ViolatorsFailure, ViolatorsError))
      ensures !(requested && reply.Ok?) ==> absenceViolators == old(absenceViolators) && hasForbidden == old(hasForbidden)
      ensures students == old(students) && loading == old(loading) && removingId == old(removingId)
      ensures successMsg == old(successMsg) && notificationsOpen == old(notificationsOpen) && courseId == old(courseId)
    {
      if !Truthy(courseId) {
        error := Some(NoCourseMessage);
        return false;
      }
      requested := true;
      error := None;
      if reply.Ok? {
        absenceViolators := reply.body;
        hasForbidden := AnyForbidden(reply.body);
      } else {
        error := Some(CaughtMessage(reply, ViolatorsFailure, ViolatorsError));
      }
    }

    /** The bell button: opening the panel reloads the violators, closing it does not; then the panel flips. */
    method ToggleNotifications(reply: Response<seq<Violator>>) returns (requested: bool)
      requires Valid()
      modifies this
      ensures Valid()
      ensures notificationsOpen == !old(notificationsOpen)
      ensures requested <==> !old(notificationsOpen) && Truthy(courseId)
      ensures old(notificationsOpen) ==>
        error == old(error) && absenceViolators == old(absenceViolators) && hasForbidden == old(hasForbidden)
      ensures !old(notificationsOpen) && !Truthy(courseId) ==> error == Some(NoCourseMessage)
      ensures requested && reply.Ok? ==>
        error == None && absenceViolators == reply.body && hasForbidden == AnyForbidden(reply.body)
      ensures requested && !reply.Ok? ==> error == Some(CaughtMessage(reply, ViolatorsFailure, ViolatorsError))
      ensures !(requested && reply.Ok?) ==> absenceViolators == old(absenceViolators) && hasForbidden == old(hasForbidden)
      ensures students == old(students) && loading == old(loading) && removingId == old(removingId)
      ensures successMsg == old(successMsg) && courseId == old(courseId)
    {
      requested := false;
      if !notificationsOpen {
        requested := LoadAbsenceViolators(reply);
      }
      notificationsOpen := !notificationsOpen;
    }

    /**
     * A violator's "delete latest absence" button. `deleteReply` answers the
     * delete; after a success the violators are reloaded (`reloaded` tells
     * whether that request went out, `reloadReply` answers it) and then the
     * success message is set, whatever the reload did. A failed delete sets a
     * fixed error, whatever the server said.
     */
    method DeleteLatest(deleteReply: Response<()>, reloadReply: Response<seq<Violator>>) returns (reloaded: bool)
      requires Valid()
      modifies this
      ensures Valid()
      ensures deleteReply.Ok? ==> successMsg == Some(DeletedLatestMessage)
      ensures reloaded <==> deleteReply.Ok? && Truthy(courseId)
      ensures deleteReply.Ok? && !Truthy(courseId) ==> error == Some(NoCourseMessage)
      ensures reloaded && reloadReply.Ok? ==>
        error == None && absenceViolators == reloadReply.body && hasForbidden == AnyForbidden(reloadReply.body)
      ensures reloaded && !reloadReply.Ok? ==> error == Some(CaughtMessage(reloadReply, ViolatorsFailure, ViolatorsError))
      ensures !(reloaded && reloadReply.Ok?) ==> absenceViolators == old(absenceViolators) && hasForbidden == old(hasForbidden)
      ensures !deleteReply.Ok? ==> error == Some(DeleteLatestError) && successMsg == None
      ensures students == old(students) && loading == old(loading) && removingId == old(removingId)
      ensures notificationsOpen == old(notificationsOpen) && courseId == old(courseId)
    {
      error := None;
      successMsg := None;
      if deleteReply.Ok? {
        reloaded := LoadAbsenceViolators(reloadReply);
        successMsg := Some(DeletedLatestMessage);
      } else {
        reloaded := false;
        error := Some(DeleteLatestError);
      }
    }

    /**
     * A student's remove button. `reply` answers the unenrol request; after a
     * success the success message is set and the roster is fetched again,
     * `refetchReply` answering that. The in-progress marker is cleared on
     * every path.
     */
    method RemoveStudent(studentId: JsValue, reply: Response<()>, refetchReply: Response<seq<JsObject>>)
      requires Valid()
      modifies this
      ensures Valid()
      ensures removingId == Null
      ensures reply.Ok? ==> successMsg == Some(RemovedMessage) && !loading
      ensures reply.Ok? && refetchReply.Ok? ==> students == refetchReply.body && error == None
      ensures reply.Ok? && !refetchReply.Ok? ==>
        students == old(students) && error == Some(CaughtMessage(refetchReply, StudentsFailure, GenericError))
      ensures !reply.Ok? ==>
        && successMsg == None && students == old(students) && loading == old(loading)
        && error == Some(CaughtMessage(reply, RemoveFailure, RemoveError))
      ensures notificationsOpen == old(notificationsOpen) && absenceViolators == old(absenceViolators)
      ensures hasForbidden == old(hasForbidden) && courseId == old(courseId)
    {
      removingId := studentId;
      error := None;
      successMsg := None;
      if reply.Ok? {
        successMsg := Some(RemovedMessage);
        FetchStudents(refetchReply);
      } else {
        error := Some(CaughtMessage(reply, RemoveFailure, RemoveError));
      }
      removingId := Null;
    }
  }
}
