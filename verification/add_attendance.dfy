/**
 * The professor's attendance-entry page: a present/absent choice and a status
 * message per student, one session date for the whole page, and one request
 * per student when that student's row is submitted.
 */
module AddAttendance {
  import opened Js

  /** "Please choose the attendance status." */
  const ChooseStatusPrompt := "الرجاء اختيار حالة الحضور."
  /** "This student's attendance is already recorded for this date." */
  const DuplicateMessage := "هذا الطالب مسجل حضوره لهذا التاريخ بالفعل"
  /** "Attendance sent successfully." */
  const SuccessMessage := "تم إرسال الحضور بنجاح."
  /** "An error occurred while sending." */
  const GenericError := "حدث خطأ أثناء الإرسال."
  /** The status the server answers with for a duplicate record. */
  const Conflict := 409

  /** The body of the record-attendance request. */
  datatype AttendanceRequest = AttendanceRequest(
    studentId: string, professorCourseId: string, isPresent: bool, notes: string, sessionDate: string)

  /**
   * The message a student's row shows after the request: success, the
   * duplicate-date message for a 409, and otherwise the thrown message or,
   * when that is empty (as it is for every other status), the generic error.
   */
  function OutcomeMessage(reply: Response<()>): (m: string)
    ensures reply.Ok? ==> m == SuccessMessage
    ensures reply.NotOk? ==> m == if reply.status == Conflict then DuplicateMessage else GenericError
    ensures reply.Failed? ==> m == if reply.message == "" then GenericError else reply.message
    ensures m != ""
  {
    if reply.Ok? then SuccessMessage
    else CaughtMessage(reply, if reply.NotOk? && reply.status == Conflict then DuplicateMessage else "", GenericError)
  }

  /**
   * An answer from the server never reads as the prompt or as no message,
   * and only a recorded attendance reads as success.
   */
  lemma OutcomeMessageNeverPrompt(reply: Response<()>)
    requires !reply.Failed?
    ensures OutcomeMessage(reply) != ChooseStatusPrompt && OutcomeMessage(reply) != ""
    ensures OutcomeMessage(reply) == SuccessMessage <==> reply.Ok?
  {
  }

  class AddAttendancePage {
    const professorCourseId: string
    /** The present/absent choice per student id; a missing key means no choice yet. */
    var attending: map<string, bool>
    /** The message shown on each student's row. */
    var messages: map<string, string>
    /** The selected session date, as the date input gives it. */
    var date: string

    /**
     * Once a student's row has been answered by the server (a message other
     * than the prompt), that student has a choice. Choices are never removed.
     */
    ghost predicate Valid()
      reads this
    {
      forall s :: s in messages && messages[s] != "" && messages[s] != ChooseStatusPrompt ==> s in attending
    }

    /** `today` is the browser's current date, which the page takes as its initial session date. */
    constructor (professorCourseId: string, today: string)
      ensures Valid()
      ensures this.professorCourseId == professorCourseId
      ensures attending == map[] && messages == map[] && date == today
    {
      this.professorCourseId := professorCourseId;
      attending := map[];
      messages := map[];
      date := today;
    }

    /** Marks one student present or absent and clears that student's message only. */
    method HandleAttendanceClick(studentId: string, isPresent: bool)
      requires Valid()
      modifies this
      ensures Valid()
      ensures attending == old(attending)[studentId := isPresent]
      ensures messages == old(messages)[studentId := ""]
      ensures date == old(date)
    {
      attending := attending[studentId := isPresent];
      messages := messages[studentId := ""];
    }

    /**
     * Submits one student's row. With no choice made, nothing is sent and the
     * prompt is shown; otherwise the request carries the current choice and
     * date, and `reply` (the server's answer to it) decides the message.
     */
    method HandleSubmit(studentId: string, reply: Response<()>) returns (sent: Option<AttendanceRequest>)
      requires Valid()
      modifies this
      ensures Valid()
      ensures attending == old(attending) && date == old(date)
      ensures studentId !in old(attending) ==>
        sent == None && messages == old(messages)[studentId := ChooseStatusPrompt]
      ensures studentId in old(attending) ==>
        && sent == Some(AttendanceRequest(studentId, professorCourseId, old(attending)[studentId], "", old(date)))
        && messages == old(messages)[studentId := OutcomeMessage(reply)]
    {
      if studentId !in attending {
        messages := messages[studentId := ChooseStatusPrompt];
        return None;
      }
      var isPresent := attending[studentId];
      sent := Some(AttendanceRequest(studentId, professorCourseId, isPresent, "", date));
      messages := messages[studentId := OutcomeMessage(reply)];
    }

    /** Picks another session date: every message is cleared, every choice kept. */
    method ChangeDate(newDate: string)
      requires Valid()
      modifies this
      ensures Valid()
      ensures date == newDate && messages == map[] && attending == old(attending)
    {
      date := newDate;
      messages := map[];
    }
  }
}
