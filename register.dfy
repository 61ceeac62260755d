/**
  The registration page: editing the form, the password checks made before the
  request, the payload sent to the server and the page after the reply.

  The form is a dictionary from input names to their string values, as in the
  page, so that a change event can name any field.
 */
module Registration {
  import opened Maybe

  /** The inputs of the form. */
  const FormKeys: set<string> :=
    {"name", "email", "password", "confirmPassword", "role", "department_id", "designation_id", "reporting_head_id"}

  /** The foreign keys a select may leave empty. */
  const IdKeys: set<string> := {"department_id", "designation_id", "reporting_head_id"}

  type Form = map<string, string>

  predicate HasFormKeys(form: Form) {
    FormKeys <= form.Keys
  }

  /** The form the page starts with and returns to after a registration. */
  const EmptyForm: Form := map[
    "name" := "", "email" := "", "password" := "", "confirmPassword" := "",
    "role" := "employee", "department_id" := "", "designation_id" := "", "reporting_head_id" := ""]

  datatype Page = Page(form: Form, error: string, success: string, loading: bool)

  // ---------------------------------------------------------------------------
  // Editing
  // ---------------------------------------------------------------------------

  /** `handleChange`: the named field takes the new value and both messages are
      cleared. */
  function HandleChange(page: Page, name: string, value: string): (r: Page)
    ensures r.form.Keys == page.form.Keys + {name}
    ensures r.form[name] == value
    ensures forall k :: k in page.form && k != name ==> r.form[k] == page.form[k]
    ensures r.error == "" && r.success == "" && r.loading == page.loading
    // editing an input of the form keeps every input present
    ensures HasFormKeys(page.form) ==> HasFormKeys(r.form)
  {
    page.(form := page.form[name := value], error := "", success := "")
  }

  // ---------------------------------------------------------------------------
  // Checks and payload
  // ---------------------------------------------------------------------------

  /** A value of the JSON payload. */
  datatype Json = JStr(s: string) | JNull

  /** Either the message of the first failed check or the payload. */
  datatype Checked = Refused(message: string) | Payload(body: map<string, Json>)

  const MismatchMessage: string := "Passwords do not match"
  const ShortPasswordMessage: string := "Password must be at least 6 characters long"

  /** `sanitizedData`: everything but `confirmPassword`, with an empty foreign key
      sent as null. */
  function Sanitized(form: Form): (body: map<string, Json>)
    requires HasFormKeys(form)
    ensures body.Keys == form.Keys - {"confirmPassword"}
    ensures forall k :: k in body && k in IdKeys ==> body[k] == if form[k] == "" then JNull else JStr(form[k])
    ensures forall k :: k in body && k !in IdKeys ==> body[k] == JStr(form[k])
  {
    map k | k in form.Keys - {"confirmPassword"} :: if k in IdKeys && form[k] == "" then JNull else JStr(form[k])
  }

  /** The guard clauses of `handleSubmit`, in their order, then the payload. */
  function Check(form: Form): (r: Checked)
    requires HasFormKeys(form)
    ensures r.Refused? <==> form["password"] != form["confirmPassword"] || |form["password"]| < 6
    // the mismatch is reported first, whatever the length
    ensures form["password"] != form["confirmPassword"] ==> r == Refused(MismatchMessage)
    ensures form["password"] == form["confirmPassword"] && |form["password"]| < 6 ==> r == Refused(ShortPasswordMessage)
    ensures r.Payload? ==> r.body == Sanitized(form)
  {
    if form["password"] != form["confirmPassword"] then Refused(MismatchMessage)
    else if |form["password"]| < 6 then Refused(ShortPasswordMessage)
    else Payload(Sanitized(form))
  }

  /** What reaches the server: a password of at least six characters that the
      confirmation matched, the confirmation itself left out, name, email,
      password and role exactly as typed, and each foreign key as typed or null. */
  lemma PayloadContents(form: Form)
    requires HasFormKeys(form)
    requires Check(form).Payload?
    ensures var body := Check(form).body;
            && "confirmPassword" !in body
            && body.Keys == FormKeys - {"confirmPassword"} + (form.Keys - FormKeys)
            && body["password"] == JStr(form["password"]) && |form["password"]| >= 6
            && form["password"] == form["confirmPassword"]
            && body["name"] == JStr(form["name"]) && body["email"] == JStr(form["email"])
            && body["role"] == JStr(form["role"])
            && (forall k :: k in IdKeys ==> (body[k] == JNull <==> form[k] == ""))
            && (forall k :: k in IdKeys && form[k] != "" ==> body[k] == JStr(form[k]))
  {
    var body := Check(form).body;
    assert "password" !in IdKeys && "name" !in IdKeys && "email" !in IdKeys && "role" !in IdKeys;
    assert forall k :: k in IdKeys ==> k in body;
  }

  // ---------------------------------------------------------------------------
  // Submitting
  // ---------------------------------------------------------------------------

  /** The answer of the registration request: success, or a failure carrying the
      server's message when it sent one. */
  datatype Reply = Registered | Failed(serverMessage: Option<string>)

  const SuccessMessage: string := "Registration successful! Redirecting to login..."
  const FailureMessage: string := "Registration failed. Please try again."

  /** `handleSubmit`: the checks, then, when they pass, the request whose answer
      is `reply`.  A refused form and a failed request keep the form; a success
      resets it. */
  function Submit(page: Page, reply: Reply): (r: Page)
    requires HasFormKeys(page.form)
    ensures !r.loading
    ensures Check(page.form).Refused? ==>
              r == Page(page.form, Check(page.form).message, "", false)
    ensures Check(page.form).Payload? && reply.Registered? ==>
              r == Page(EmptyForm, "", SuccessMessage, false)
    ensures Check(page.form).Payload? && reply.Failed? ==>
              && r.form == page.form && r.success == ""
              && r.error == if reply.serverMessage.Some? && reply.serverMessage.value != ""
                            then reply.serverMessage.value else FailureMessage
    // exactly one message is shown, and every input is still there
    ensures (r.error == "") != (r.success == "")
    ensures HasFormKeys(r.form)
  {
    match Check(page.form)
    case Refused(message) => Page(page.form, message, "", false)
    case Payload(_) =>
      match reply
      case Registered => Page(EmptyForm, "", SuccessMessage, false)
      case Failed(m) =>
        Page(page.form, if m.Some? && m.value != "" then m.value else FailureMessage, "", false)
  }
}
