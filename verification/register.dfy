/**
 * The public sign-up page: the checks made before the request is sent, the
 * field-change handler and the loading/error state around the request.
 */
module Register {
  import opened Js

  /** The inputs of the form, by their `name` attribute. */
  datatype Field = FullName | Email | Password | RoleName | Specialization

  datatype RegisterForm = RegisterForm(fullName: string, email: string, password: string, roleName: string, specialization: string)
  {
    function Value(f: Field): string {
      match f
      case FullName => fullName
      case Email => email
      case Password => password
      case RoleName => roleName
      case Specialization => specialization
    }

    /** `{ ...form, [name]: value }`: only the named input changes. */
    function With(f: Field, v: string): (r: RegisterForm)
      ensures r.Value(f) == v
      ensures forall g :: g != f ==> r.Value(g) == Value(g)
    {
      match f
      case FullName => this.(fullName := v)
      case Email => this.(email := v)
      case Password => this.(password := v)
      case RoleName => this.(roleName := v)
      case Specialization => this.(specialization := v)
    }
  }

  const InitialForm := RegisterForm("", "", "", "Student", "")

  /** "Please fill in all required fields." */
  const RequiredFieldsMessage := "الرجاء ملء جميع الحقول المطلوبة"
  /** "Specialization is required for teaching staff." */
  const SpecializationMessage := "التخصص مطلوب لأعضاء هيئة التدريس"
  /** "Registration failed. Please try again." */
  const DefaultFailure := "فشل التسجيل. الرجاء المحاولة مرة أخرى"
  const TeacherRole := "Teacher"
  const StudentHome := "/student"

  /** The required-fields rule: the name is not blank, and email and password are not empty (they are not trimmed). */
  predicate HasRequiredFields(f: RegisterForm) {
    Trim(f.fullName) != "" && f.email != "" && f.password != ""
  }

  /** The specialization rule applies to the "Teacher" role only. */
  predicate SpecializationMissing(f: RegisterForm) {
    f.roleName == TeacherRole && Trim(f.specialization) == ""
  }

  /**
   * The checks made before anything is sent, in the order the handler makes
   * them: `None` lets the request go, otherwise the message to show.
   */
  function PreSubmitError(f: RegisterForm): (r: Option<string>)
    ensures r.None? <==> HasRequiredFields(f) && !SpecializationMissing(f)
    ensures !HasRequiredFields(f) ==> r == Some(RequiredFieldsMessage)
    ensures r == Some(SpecializationMessage) <==> HasRequiredFields(f) && SpecializationMissing(f)
  {
    if Trim(f.fullName) == "" || f.email == "" || f.password == "" then Some(RequiredFieldsMessage)
    else if f.roleName == TeacherRole && Trim(f.specialization) == "" then Some(SpecializationMessage)
    else None
  }

  /**
   * Email and password are only tested for emptiness: whitespace-only values
   * and one-character passwords get through, and a "Student" needs no
   * specialization at all.
   */
  lemma NoFormatOrLengthCheck(f: RegisterForm)
    requires Trim(f.fullName) != "" && |f.email| >= 1 && |f.password| >= 1
    requires f.roleName != TeacherRole
    ensures PreSubmitError(f) == None
  {
  }

  /** The server's answer to the register request. */
  datatype RegisterReply =
    | Registered
      /** A non-2xx answer; `errors` is the body's list of messages, if any. */
    | Refused(errors: Option<seq<string>>)
      /** The request threw before an answer was read (network failure, unreadable body). */
    | Failed(message: string)

  /** The error shown when the request does not succeed. */
  function FailureText(reply: RegisterReply): (text: string)
    requires !reply.Registered?
    ensures reply.Refused? ==> text != ""
  {
    match reply
    case Refused(errs) =>
      var joined := if errs.Some? then Join(errs.value, ", ") else "";
      if joined == "" then DefaultFailure else joined
    case Failed(m) => m
  }

  class RegisterPage {
    var formData: RegisterForm
    var loading: bool
    var error: Option<string>
    /** Where the page has navigated to, if anywhere. */
    var location: Option<string>

    constructor ()
      ensures formData == InitialForm && !loading && error == None && location == None
    {
      formData := InitialForm;
      loading := false;
      error := None;
      location := None;
    }

    /** Edits one input and nothing else. */
    method HandleChange(field: Field, value: string)
      modifies this
      ensures formData == old(formData).With(field, value)
      ensures loading == old(loading) && error == old(error) && location == old(location)
    {
      formData := formData.With(field, value);
    }

    /**
     * Submits the form. The request (returned as `sent`) goes out only when
     * the pre-submit checks pass; `reply` is the server's answer to it.
     */
    method HandleSubmit(reply: RegisterReply) returns (sent: Option<RegisterForm>)
      modifies this
      ensures formData == old(formData) && !loading
      ensures sent.Some? <==> PreSubmitError(old(formData)).None?
      ensures sent.None? ==> error == PreSubmitError(old(formData)) && error.Some? && location == old(location)
      ensures sent.Some? ==> sent.value == old(formData)
      ensures sent.Some? && reply.Registered? ==> error == None && location == Some(StudentHome)
      ensures sent.Some? && !reply.Registered? ==> error == Some(FailureText(reply)) && location == old(location)
    {
      loading := true;
      error := None;
      if Trim(formData.fullName) == "" || formData.email == "" || formData.password == "" {
        error := Some(RequiredFieldsMessage);
        loading := false;
        return None;
      }
      if formData.roleName == TeacherRole && Trim(formData.specialization) == "" {
        error := Some(SpecializationMessage);
        loading := false;
        return None;
      }
      sent := Some(formData);
      if reply.Registered? {
        location := Some(StudentHome);
      } else {
        error := Some(FailureText(reply));
      }
      loading := false;
    }
  }
}
