/**
 * The admin's students list: loading the list, deleting a student and the
 * edit dialog that updates one entry in place.
 */
module StudentsList {
  import opened Js
  import opened UserLists

  const FetchStudentsFailure := "Failed to fetch students"
  const UpdateFailure := "Failed to update student"
  const UnknownError := "Unknown error"
  /** "The user is enrolled in a course" (with its trailing space): every refused delete says this. */
  const DeleteRefusal := "المستخدم مسجل في كورس "

  /** The properties of the edit form. */
  const EditKeys: set<string> := {"fullName", "email", "userName", "emailConfirmed"}

  /** The edit form before any student has been opened. */
  const InitialForm: JsObject := map[
    "fullName" := Str(""), "email" := Str(""), "userName" := Str(""), "emailConfirmed" := Bool(false)]

  class StudentsListPage {
    var students: seq<JsObject>
    var loading: bool
    var error: Option<string>
    /** The entry whose edit dialog is open, if any. */
    var editingStudent: Option<JsObject>
    var formData: JsObject
    var updating: bool
    /** The messages passed to `alert`, oldest first. */
    var alerts: seq<string>

    constructor ()
      ensures students == [] && loading && error == None
      ensures editingStudent == None && formData == InitialForm && !updating && alerts == []
    {
      students := [];
      loading := true;
      error := None;
      editingStudent := None;
      formData := InitialForm;
      updating := false;
      alerts := [];
    }

    /** Loads the list; a failure keeps the entries already shown. */
    method FetchStudents(reply: Response<seq<JsObject>>)
      modifies this
      ensures !loading
      ensures reply.Ok? ==> students == reply.body && error == None
      ensures !reply.Ok? ==>
        students == old(students) && error == Some(CaughtMessage(reply, FetchStudentsFailure, UnknownError))
      ensures editingStudent == old(editingStudent) && formData == old(formData) && updating == old(updating)
      ensures alerts == old(alerts)
    {
      loading := true;
      error := None;
      if reply.Ok? {
        students := reply.body;
      } else {
        error := Some(CaughtMessage(reply, FetchStudentsFailure, UnknownError));
      }
      loading := false;
    }

    /**
     * The row's delete button: `confirmed` is the answer to the confirmation
     * dialog and `reply` the server's answer to the delete request. Without
     * confirmation nothing happens; a refused delete keeps the list and
     * alerts the fixed message, whatever the server said.
     */
    method HandleDelete(userId: JsValue, confirmed: bool, reply: Response<()>)
      modifies this
      ensures !confirmed ==> unchanged(this)
      ensures confirmed && reply.Ok? ==> students == RemoveUser(old(students), userId) && alerts == old(alerts)
      ensures confirmed && !reply.Ok? ==>
        students == old(students) && alerts == old(alerts) + [ThrownMessage(reply, DeleteRefusal)]
      ensures loading == old(loading) && error == old(error)
      ensures editingStudent == old(editingStudent) && formData == old(formData) && updating == old(updating)
    {
      if !confirmed {
        return;
      }
      if !reply.Ok? {
        alerts := alerts + [ThrownMessage(reply, DeleteRefusal)];
        return;
      }
      students := RemoveUser(students, userId);
    }

    /**
     * Opens the edit dialog for a row: the dialog keeps the row's id and
     * fields, and the form is filled with fullName, email, userName and
     * emailConfirmed.
     */
    method HandleEdit(student: JsObject)
      modifies this
      ensures editingStudent == Some(FormFrom(student, EditKeys + {UserIdKey}))
      ensures formData == FormFrom(student, EditKeys)
      ensures students == old(students) && loading == old(loading) && error == old(error)
      ensures updating == old(updating) && alerts == old(alerts)
    {
      editingStudent := Some(FormFrom(student, EditKeys + {UserIdKey}));
      formData := FormFrom(student, EditKeys);
    }

    /** One input of the edit dialog changes; only its property of the form changes. */
    method OnChange(e: InputEvent)
      modifies this
      ensures formData == UserLists.OnChange(old(formData), e)
      ensures editingStudent == old(editingStudent) && updating == old(updating)
      ensures students == old(students) && loading == old(loading) && error == old(error) && alerts == old(alerts)
    {
      formData := UserLists.OnChange(formData, e);
    }

    /** The dialog's Cancel button, or a click outside it: the dialog closes and the form is kept. */
    method CloseEdit()
      modifies this
      ensures editingStudent == None && formData == old(formData) && updating == old(updating)
      ensures students == old(students) && loading == old(loading) && error == old(error) && alerts == old(alerts)
    {
      editingStudent := None;
    }

    /**
     * Submits the edit dialog, which is only rendered while a student is
     * being edited. The request body (`sent`) is the form with the edited
     * student's id; on success the entries with that id become exactly that
     * body and the dialog closes.
     */
    method HandleUpdateSubmit(reply: Response<()>) returns (sent: JsObject)
      requires editingStudent.Some?
      modifies this
      ensures sent == Entry(UserId(old(editingStudent).value), old(formData))
      ensures !updating && formData == old(formData)
      ensures reply.Ok? ==>
        && students == ReplaceUser(old(students), UserId(old(editingStudent).value), sent)
        && editingStudent == None && alerts == old(alerts)
      ensures !reply.Ok? ==>
        && students == old(students) && editingStudent == old(editingStudent)
        && alerts == old(alerts) + [ThrownMessage(reply, UpdateFailure)]
      ensures loading == old(loading) && error == old(error)
    {
      updating := true;
      var userId := UserId(editingStudent.value);
      sent := Entry(userId, formData);
      if reply.Ok? {
        students := ReplaceUser(students, userId, sent);
        editingStudent := None;
      } else {
        alerts := alerts + [ThrownMessage(reply, UpdateFailure)];
      }
      updating := false;
    }
  }
}
