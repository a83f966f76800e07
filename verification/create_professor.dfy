/**
 * The admin's "Create Professor" form: the client-side validator, the
 * field-change handler and the submit handler that gates the request on the
 * validator and resets the form on success.
 */
module CreateProfessor {
  import opened Js

  /** The inputs of the form, by their `name` attribute. */
  datatype Field = FullName | Email | Password | Specialization

  /** The keys of the page's `errors` object: one per input, and `submit` for the request's failure. */
  datatype ErrorKey = On(field: Field) | Submit

  datatype ProfessorForm = ProfessorForm(fullName: string, email: string, password: string, specialization: string)
  {
    function Value(f: Field): string {
      match f
      case FullName => fullName
      case Email => email
      case Password => password
      case Specialization => specialization
    }

    /** `{ ...form, [name]: value }`: only the named input changes. */
    function With(f: Field, v: string): (r: ProfessorForm)
      ensures r.Value(f) == v
      ensures forall g :: g != f ==> r.Value(g) == Value(g)
    {
      match f
      case FullName => this.(fullName := v)
      case Email => this.(email := v)
      case Password => this.(password := v)
      case Specialization => this.(specialization := v)
    }
  }

  const InitialForm := ProfessorForm("", "", "", "")

  const FullNameRequired := "Full name is required"
  const EmailRequired := "Email is required"
  const EmailInvalid := "Email is invalid"
  const PasswordRequired := "Password is required"
  const PasswordTooShort := "Password must be at least 6 characters"
  const SpecializationRequired := "Specialization is required"
  const MinPasswordLength := 6

  const CreatedMessage := "Professor created successfully!"
  /** Shown when the server refuses without a `message` in its body. */
  const DefaultRefusal := "Email all ready uses "

  // ---------------------------------------------------------------------
  // The unanchored pattern \S+@\S+\.\S+
  // ---------------------------------------------------------------------

  /** `s[lo..hi]` is a non-empty run of non-whitespace characters, as `\S+` matches. */
  ghost predicate NonSpaceRun(s: string, lo: int, hi: int)
    requires 0 <= lo <= hi <= |s|
  {
    lo < hi && forall k :: lo <= k < hi ==> !IsSpace(s[k])
  }

  /** `s[a..e]` is a match of \S+@\S+\.\S+ with the `@` at `at` and the `.` at `dot`. */
  ghost predicate EmailMatchAt(s: string, a: int, at: int, dot: int, e: int) {
    && 0 <= a < at < dot < e <= |s|
    && s[at] == '@' && s[dot] == '.'
    && NonSpaceRun(s, a, at) && NonSpaceRun(s, at + 1, dot) && NonSpaceRun(s, dot + 1, e)
  }

  /** What `/\S+@\S+\.\S+/.test(s)` decides: some substring of `s` matches. */
  ghost predicate MatchesEmailPattern(s: string) {
    exists a, at, dot, e :: EmailMatchAt(s, a, at, dot, e)
  }

  /** From `i`: non-space characters up to a `.` at `dot`, followed by a non-space character. */
  ghost predicate DomainAt(s: string, i: int, dot: int) {
    0 <= i < dot && dot + 1 < |s| && s[dot] == '.' && !IsSpace(s[dot + 1]) && NonSpaceRun(s, i, dot)
  }

  /** Scans forward from `i` for the `\S+\.\S` part of the pattern. */
  function DomainFrom(s: string, i: nat): bool
    requires i <= |s|
    decreases |s| - i
  {
    if i == |s| || IsSpace(s[i]) then false
    else if i + 2 < |s| && s[i + 1] == '.' && !IsSpace(s[i + 2]) then true
    else DomainFrom(s, i + 1)
  }

  lemma {:induction false} DomainFromIff(s: string, i: nat)
    requires i <= |s|
    ensures DomainFrom(s, i) <==> HasDomainFrom(s, i)
    decreases |s| - i
  {
    if i == |s| || IsSpace(s[i]) {
    } else if i + 2 < |s| && s[i + 1] == '.' && !IsSpace(s[i + 2]) {
      assert DomainAt(s, i, i + 1);
    } else {
      DomainFromIff(s, i + 1);
      if DomainFrom(s, i + 1) {
        var dot :| DomainAt(s, i + 1, dot);
        assert DomainAt(s, i, dot);
      }
      if dot :| DomainAt(s, i, dot) {
        assert DomainAt(s, i + 1, dot);
      }
    }
  }

  ghost predicate HasDomainFrom(s: string, i: int) {
    exists dot :: DomainAt(s, i, dot)
  }

  /** An `@` at `at` with a non-space character before it and the rest of the pattern after it. */
  ghost predicate AtCandidate(s: string, at: int) {
    1 <= at < |s| && s[at] == '@' && !IsSpace(s[at - 1]) && HasDomainFrom(s, at + 1)
  }

  /** Scans forward from `j` for an `@` that completes the pattern. */
  function AtFrom(s: string, j: nat): bool
    requires j <= |s|
    decreases |s| - j
  {
    if j == |s| then false
    else if 1 <= j && s[j] == '@' && !IsSpace(s[j - 1]) && DomainFrom(s, j + 1) then true
    else AtFrom(s, j + 1)
  }

  lemma {:induction false} AtFromIff(s: string, j: nat)
    requires j <= |s|
    ensures AtFrom(s, j) <==> exists at :: j <= at && AtCandidate(s, at)
    decreases |s| - j
  {
    if j < |s| {
      DomainFromIff(s, j + 1);
      AtFromIff(s, j + 1);
      if AtCandidate(s, j) {
        assert AtFrom(s, j);
      }
      if at :| j + 1 <= at && AtCandidate(s, at) {
        assert AtFrom(s, j + 1);
      }
    }
  }

  /** The regular-expression test, decided by a left-to-right scan. */
  function EmailTest(s: string): (ok: bool)
    ensures ok <==> MatchesEmailPattern(s)
  {
    EmailScanIsPattern(s);
    AtFrom(s, 0)
  }

  lemma EmailScanIsPattern(s: string)
    ensures AtFrom(s, 0) <==> MatchesEmailPattern(s)
  {
    AtFromIff(s, 0);
    if at :| 0 <= at && AtCandidate(s, at) {
      assert HasDomainFrom(s, at + 1);
      var dot :| DomainAt(s, at + 1, dot);
      assert EmailMatchAt(s, at - 1, at, dot, dot + 2);
    }
    if a, at, dot, e :| EmailMatchAt(s, a, at, dot, e) {
      assert DomainAt(s, at + 1, dot);
      assert HasDomainFrom(s, at + 1);
      assert AtCandidate(s, at);
    }
  }

  // ---------------------------------------------------------------------
  // validate
  // ---------------------------------------------------------------------

  /**
   * The validator: one entry per failing field, keyed by the field; the empty
   * map means the form may be sent.
   */
  function Validate(f: ProfessorForm): (errors: map<ErrorKey, string>)
    ensures Submit !in errors
    ensures On(FullName) in errors <==> Trim(f.fullName) == ""
    ensures On(Email) in errors <==> !MatchesEmailPattern(f.email)
    ensures On(Password) in errors <==> Utf16Length(f.password) < MinPasswordLength
    ensures On(Specialization) in errors <==> Trim(f.specialization) == ""
  {
    var e0: map<ErrorKey, string> := map[];
    var e1 := if Trim(f.fullName) == "" then e0[On(FullName) := FullNameRequired] else e0;
    var e2 :=
      if f.email == "" then e1[On(Email) := EmailRequired]
      else if !EmailTest(f.email) then e1[On(Email) := EmailInvalid]
      else e1;
    var e3 :=
      if f.password == "" then e2[On(Password) := PasswordRequired]
      else if Utf16Length(f.password) < MinPasswordLength then e2[On(Password) := PasswordTooShort]
      else e2;
    if Trim(f.specialization) == "" then e3[On(Specialization) := SpecializationRequired] else e3
  }

  /**
   * The message for each reported field: "required" for an empty email or
   * password and the format or length message otherwise, never both.
   */
  lemma ValidateMessages(f: ProfessorForm)
    ensures On(FullName) in Validate(f) ==> Validate(f)[On(FullName)] == FullNameRequired
    ensures On(Email) in Validate(f) ==> Validate(f)[On(Email)] == if f.email == "" then EmailRequired else EmailInvalid
    ensures On(Password) in Validate(f) ==> Validate(f)[On(Password)] == if f.password == "" then PasswordRequired else PasswordTooShort
    ensures On(Specialization) in Validate(f) ==> Validate(f)[On(Specialization)] == SpecializationRequired
  {
  }

  /** A form passes validation exactly when every field meets its rule. */
  lemma ValidateAcceptsExactly(f: ProfessorForm)
    ensures Validate(f) == map[] <==>
      && Trim(f.fullName) != ""
      && MatchesEmailPattern(f.email)
      && Utf16Length(f.password) >= MinPasswordLength
      && Trim(f.specialization) != ""
  {
    var errors := Validate(f);
    if errors != map[] {
      var k :| k in errors;
    }
  }

  /** The all-empty initial form fails on every field. */
  lemma InitialFormFailsEveryRule()
    ensures Validate(InitialForm).Keys == {On(FullName), On(Email), On(Password), On(Specialization)}
  {
    assert !MatchesEmailPattern("");
  }

  // ---------------------------------------------------------------------
  // The page's state and its handlers
  // ---------------------------------------------------------------------

  /** The server's answer to the create-professor request. */
  datatype CreateReply =
    | Created
      /** A non-2xx answer; `message` is the body's message, "" when it has none. */
    | Refused(message: string)
      /** The request threw before an answer was read (network failure, unreadable body). */
    | Failed(message: string)

  /** The text stored under `submit` when the request does not succeed. */
  function SubmitErrorText(reply: CreateReply): (text: string)
    requires !reply.Created?
    ensures reply.Refused? ==> text != ""
  {
    match reply
    case Refused(m) => if m == "" then DefaultRefusal else m
    case Failed(m) => m
  }

  class CreateProfessorPage {
    var formData: ProfessorForm
    var errors: map<ErrorKey, string>
    var isSubmitting: bool
    var successMsg: string

    constructor ()
      ensures formData == InitialForm && errors == map[] && !isSubmitting && successMsg == ""
    {
      formData := InitialForm;
      errors := map[];
      isSubmitting := false;
      successMsg := "";
    }

    /** Edits one input; blanks that input's error if one is showing, and no other. */
    method HandleChange(field: Field, value: string)
      modifies this
      ensures formData == old(formData).With(field, value)
      ensures On(field) in old(errors) && old(errors)[On(field)] != "" ==> errors == old(errors)[On(field) := ""]
      ensures !(On(field) in old(errors) && old(errors)[On(field)] != "") ==> errors == old(errors)
      ensures isSubmitting == old(isSubmitting) && successMsg == old(successMsg)
    {
      formData := formData.With(field, value);
      if On(field) in errors && errors[On(field)] != "" {
        errors := errors[On(field) := ""];
      }
    }

    /**
     * Submits the form. The request (returned as `sent`) goes out only when
     * the validator finds nothing; `reply` is the server's answer to it.
     */
    method HandleSubmit(reply: CreateReply) returns (sent: Option<ProfessorForm>)
      modifies this
      ensures sent.Some? <==> Validate(old(formData)) == map[]
      ensures sent.None? ==> errors == Validate(old(formData)) && formData == old(formData)
      ensures sent.None? ==> successMsg == "" && isSubmitting == old(isSubmitting)
      ensures sent.Some? ==> sent.value == old(formData) && !isSubmitting
      ensures sent.Some? && reply.Created? ==>
        formData == InitialForm && successMsg == CreatedMessage && errors == old(errors)
      ensures sent.Some? && !reply.Created? ==>
        errors == map[Submit := SubmitErrorText(reply)] && formData == old(formData) && successMsg == ""
    {
      successMsg := "";
      var validationErrors := Validate(formData);
      if |validationErrors| != 0 {
        errors := validationErrors;
        return None;
      }
      assert validationErrors == map[];
      isSubmitting := true;
      sent := Some(formData);
      if reply.Created? {
        successMsg := CreatedMessage;
        formData := InitialForm;
      } else {
        errors := map[Submit := SubmitErrorText(reply)];
      }
      isSubmitting := false;
    }
  }
}
