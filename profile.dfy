/**
  The employee's own profile form: validation of the name and the email, the
  payload of the update request, the form after a successful update, the status
  label and the initials shown in the avatar.
 */
module Profile {
  import opened Maybe
  import opened JsText

  // ---------------------------------------------------------------------------
  // The name check: /^[A-Za-z .]{2,}$/ on the trimmed name
  // ---------------------------------------------------------------------------

  /** The class `[A-Za-z .]`. */
  predicate IsNameChar(c: char) {
    IsAsciiLetter(c) || c == ' ' || c == '.'
  }

  function AllNameChars(s: string): (ok: bool)
    ensures ok <==> forall k :: 0 <= k < |s| ==> IsNameChar(s[k])
  {
    s == [] || (IsNameChar(s[0]) && AllNameChars(s[1..]))
  }

  /** The name check of the form: at least two characters after trimming,
      each a letter, a space or a dot. */
  function IsValidName(raw: string): (ok: bool)
    ensures ok <==> |Trim(raw)| >= 2 && forall k :: 0 <= k < |Trim(raw)| ==> IsNameChar(Trim(raw)[k])
  {
    var s := Trim(raw);
    |s| >= 2 && AllNameChars(s)
  }

  // ---------------------------------------------------------------------------
  // The email check: /^[^\s@]+@[^\s@]+\.[^\s@]{2,}$/ on the trimmed email
  // ---------------------------------------------------------------------------

  /** The class `[^\s@]`. */
  predicate IsEmailChar(c: char) {
    !IsSpace(c) && c != '@'
  }

  predicate AllEmailChars(s: string) {
    forall k :: 0 <= k < |s| ==> IsEmailChar(s[k])
  }

  /** What the regular expression matches, read off its shape: a non-empty local
      part, '@', a non-empty domain label, '.', and at least two more characters,
      none of the parts holding whitespace or '@'. */
  ghost predicate MatchesEmailRegex(s: string) {
    exists i, j :: 0 < i && i + 1 < j && j + 2 < |s| && s[i] == '@' && s[j] == '.'
                   && AllEmailChars(s[..i]) && AllEmailChars(s[i + 1..j]) && AllEmailChars(s[j + 1..])
  }

  /** Index of the first '@', or -1. */
  function IndexOfAt(s: string): (k: int)
    ensures -1 <= k < |s|
    ensures k >= 0 ==> s[k] == '@'
    ensures forall j :: 0 <= j < |s| && (k < 0 || j < k) ==> s[j] != '@'
  {
    if s == [] then -1
    else if s[0] == '@' then 0
    else
      var k := IndexOfAt(s[1..]);
      if k < 0 then -1 else k + 1
  }

  /** A '.' in the domain that is not its first character and has at least two
      characters after it. */
  predicate HasInnerDot(domain: string) {
    exists k :: 1 <= k && k + 3 <= |domain| && domain[k] == '.'
  }

  /** The email check as character predicates: a first '@' that is not the first
      character, no whitespace before it, no whitespace and no second '@' after
      it, and an inner dot in the domain. */
  function EmailLooksValid(s: string): bool {
    var i := IndexOfAt(s);
    i > 0 && AllEmailChars(s[..i]) && AllEmailChars(s[i + 1..]) && HasInnerDot(s[i + 1..])
  }

  /** Every string the character checks accept matches the regular expression. */
  lemma EmailCheckSound(s: string)
    requires EmailLooksValid(s)
    ensures MatchesEmailRegex(s)
  {
    var i := IndexOfAt(s);
    var d := s[i + 1..];
    var k :| 1 <= k && k + 3 <= |d| && d[k] == '.';
    var j := i + 1 + k;
    assert s[i + 1..j] == d[..k];
    assert s[j + 1..] == d[k + 1..];
    assert s[j] == d[k];
  }

  lemma FirstAtIs(s: string, i: int)
    requires 0 <= i < |s| && s[i] == '@' && AllEmailChars(s[..i])
    ensures IndexOfAt(s) == i
  {
    forall p | 0 <= p < i ensures s[p] != '@' {
      assert s[p] == s[..i][p];
    }
  }

  lemma DomainChars(s: string, i: int, j: int)
    requires 0 <= i && i + 1 < j < |s| && s[j] == '.'
    requires AllEmailChars(s[i + 1..j]) && AllEmailChars(s[j + 1..])
    ensures AllEmailChars(s[i + 1..])
  {
    assert s[i + 1..] == s[i + 1..j] + [s[j]] + s[j + 1..];
  }

  /** Every string the regular expression matches passes the character checks. */
  lemma EmailCheckComplete(s: string)
    requires MatchesEmailRegex(s)
    ensures EmailLooksValid(s)
  {
    var i, j :| 0 < i && i + 1 < j && j + 2 < |s| && s[i] == '@' && s[j] == '.'
                && AllEmailChars(s[..i]) && AllEmailChars(s[i + 1..j]) && AllEmailChars(s[j + 1..]);
    FirstAtIs(s, i);
    DomainChars(s, i, j);
    var d := s[i + 1..];
    assert d[j - i - 1] == '.';
  }

  /** The character checks accept exactly the strings the regular expression
      matches. */
  lemma EmailCheckMatchesRegex(s: string)
    ensures EmailLooksValid(s) <==> MatchesEmailRegex(s)
  {
    if EmailLooksValid(s) {
      EmailCheckSound(s);
    }
    if MatchesEmailRegex(s) {
      EmailCheckComplete(s);
    }
  }

  /** The email check of the form: the trimmed input is tested against the
      pattern, so it passes exactly when the trimmed text matches it. */
  function IsValidEmail(raw: string): (ok: bool)
    ensures ok <==> MatchesEmailRegex(Trim(raw))
  {
    EmailCheckMatchesRegex(Trim(raw));
    EmailLooksValid(Trim(raw))
  }

  // ---------------------------------------------------------------------------
  // Submitting the form
  // ---------------------------------------------------------------------------

  /** The form state: `reportingHead` is the select's value, "" for no head or
      the decimal id of an employee, and None if it were undefined. */
  datatype ProfileForm = ProfileForm(name: string, email: string, password: string, reportingHead: Option<string>)

  /** `reporting_head_id` in the payload: left out, null, or a number. */
  datatype HeadRef = Omitted | NoHead | HeadId(id: nat)

  datatype UpdatePayload = UpdatePayload(name: string, email: string, password: Option<string>, reportingHead: HeadRef)

  datatype FieldErrors = FieldErrors(name: Option<string>, email: Option<string>)

  /** Either the field errors that stop the submission or the payload sent. */
  datatype Submission = Rejected(errors: FieldErrors) | Submitted(payload: UpdatePayload)

  const NameError: string := "Enter a valid name (alphabets, space and dot)"
  const EmailError: string := "Enter a valid email address"

  /** `onSubmit` up to the update request (lines 71-87). */
  function Submit(form: ProfileForm): (r: Submission)
    requires form.reportingHead.Some? ==> AllDigits(form.reportingHead.value)
    // any field error stops the submission, and each error belongs to its field
    ensures r.Submitted? <==> IsValidName(form.name) && IsValidEmail(form.email)
    ensures r.Rejected? ==>
              && (r.errors.name == if IsValidName(form.name) then None else Some(NameError))
              && (r.errors.email == if IsValidEmail(form.email) then None else Some(EmailError))
    // the payload carries the trimmed name and email
    ensures r.Submitted? ==> r.payload.name == Trim(form.name) && r.payload.email == Trim(form.email)
    // the password only when one was typed, and then as typed
    ensures r.Submitted? ==> r.payload.password == if form.password == "" then None else Some(form.password)
    // an empty head becomes null, any other is converted to its number
    ensures r.Submitted? ==>
              && (form.reportingHead.None? ==> r.payload.reportingHead == Omitted)
              && (form.reportingHead == Some("") ==> r.payload.reportingHead == NoHead)
              && (form.reportingHead.Some? && form.reportingHead.value != "" ==>
                    r.payload.reportingHead == HeadId(DecimalValue(form.reportingHead.value)))
  {
    var nameOk := IsValidName(form.name);
    var emailOk := IsValidEmail(form.email);
    if !nameOk || !emailOk then
      Rejected(FieldErrors(if nameOk then None else Some(NameError), if emailOk then None else Some(EmailError)))
    else
      var head :=
        match form.reportingHead
        case None => Omitted
        case Some(v) => if v == "" then NoHead else HeadId(DecimalValue(v));
      Submitted(UpdatePayload(Trim(form.name), Trim(form.email),
                              if form.password != "" then Some(form.password) else None, head))
  }

  /** The form after the update request returned (`updated?.id` is truthy when
      `updatedId` is a non-zero id): the password is cleared, nothing else. */
  function AfterUpdate(form: ProfileForm, updatedId: Option<nat>): (r: ProfileForm)
    ensures r.name == form.name && r.email == form.email && r.reportingHead == form.reportingHead
    ensures r.password == if updatedId.Some? && updatedId.value != 0 then "" else form.password
  {
    if updatedId.Some? && updatedId.value != 0 then form.(password := "") else form
  }

  // ---------------------------------------------------------------------------
  // The status label
  // ---------------------------------------------------------------------------

  /** The values `emp.status` can hold (numbers restricted to integers). */
  datatype JsValue = JsBool(b: bool) | JsString(s: string) | JsNumber(n: int) | JsNull | JsUndefined

  /** `String(v)`. */
  function ToJsString(v: JsValue): string {
    match v
    case JsBool(b) => if b then "true" else "false"
    case JsString(s) => s
    case JsNumber(n) => IntToDecimal(n)
    case JsNull => "null"
    case JsUndefined => "undefined"
  }

  /** The status column: "Active" for the boolean true or for a value that
      prints as "Active", "Inactive" for everything else.  No number prints as
      "Active", so only the boolean and the string qualify. */
  function StatusLabel(status: JsValue): (shown: string)
    ensures shown == "Active" || shown == "Inactive"
    ensures shown == "Active" <==> status == JsBool(true) || status == JsString("Active")
  {
    NumberNeverActive(status);
    if status == JsBool(true) || ToJsString(status) == "Active" then "Active" else "Inactive"
  }

  /** A printed number starts with a digit or a minus sign. */
  lemma NumberNeverActive(v: JsValue)
    ensures v.JsNumber? ==> ToJsString(v) != "Active"
  {
    if v.JsNumber? && v.n >= 0 {
      var s := IntToDecimal(v.n);
      assert IsDigit(s[0]);
    }
  }

  // ---------------------------------------------------------------------------
  // Initials
  // ---------------------------------------------------------------------------

  /** `s.split(' ')`: the pieces between single spaces, empty ones included. */
  function SplitOnSpace(s: string): (words: seq<string>)
    ensures |words| >= 1
  {
    if s == [] then [""]
    else
      var rest := SplitOnSpace(s[1..]);
      if s[0] == ' ' then [""] + rest else [[s[0]] + rest[0]] + rest[1..]
  }

  /** The first character of every word, joined: an empty word has none, and
      its `undefined` joins as nothing. */
  function FirstChars(words: seq<string>): string {
    if words == [] then ""
    else (if words[0] == "" then "" else [words[0][0]]) + FirstChars(words[1..])
  }

  /** The characters that start a word: not a space, and first or after a space. */
  function WordStarts(s: string, afterSpace: bool): string {
    if s == [] then ""
    else (if s[0] != ' ' && afterSpace then [s[0]] else "") + WordStarts(s[1..], s[0] == ' ')
  }

  lemma FirstCharsCons(w: string, rest: seq<string>)
    ensures FirstChars([w] + rest) == (if w == "" then "" else [w[0]]) + FirstChars(rest)
  {
    assert ([w] + rest)[1..] == rest;
  }

  /** Splitting and taking first characters yields exactly the word starts. */
  lemma {:induction false} FirstCharsAreWordStarts(s: string)
    ensures FirstChars(SplitOnSpace(s)) == WordStarts(s, true)
    ensures FirstChars(SplitOnSpace(s)[1..]) == WordStarts(s, false)
  {
    if s != [] {
      var rest := SplitOnSpace(s[1..]);
      FirstCharsAreWordStarts(s[1..]);
      if s[0] == ' ' {
        FirstCharsCons("", rest);
        assert SplitOnSpace(s)[1..] == rest;
      } else {
        FirstCharsCons([s[0]] + rest[0], rest[1..]);
        assert SplitOnSpace(s)[1..] == rest[1..];
      }
    }
  }

  /** `.slice(0, 2)`. */
  function Take2(s: string): string {
    if |s| <= 2 then s else s[..2]
  }

  /** The initials: the name is split at single spaces, the first character of
      each word is kept, the first two of those are upper-cased.  This is the
      first (at most) two word starts, upper-cased. */
  function InitialsOf(name: string): (r: string)
    ensures r == ToUpper(Take2(WordStarts(name, true)))
    ensures |r| <= 2
  {
    FirstCharsAreWordStarts(name);
    ToUpper(Take2(FirstChars(SplitOnSpace(name))))
  }

  /** The name the avatar is built from: the form's name, else the signed-in
      user's name, else "NA". */
  function AvatarSource(formName: string, userName: Option<string>): string {
    if formName != "" then formName
    else if userName.Some? && userName.value != "" then userName.value
    else "NA"
  }

  /** The avatar text as written (line 101): the fallback "NA" goes through the
      initials extraction too. */
  function AvatarInitialsAsWritten(formName: string, userName: Option<string>): (r: string)
    ensures |r| <= 2
    ensures formName != "" ==> r == ToUpper(Take2(WordStarts(formName, true)))
    ensures formName == "" && userName.Some? && userName.value != "" ==>
              r == ToUpper(Take2(WordStarts(userName.value, true)))
  {
    InitialsOf(AvatarSource(formName, userName))
  }

  /** A string without spaces is a single word. */
  lemma {:induction false} SplitWithoutSpace(s: string)
    requires forall k :: 0 <= k < |s| ==> s[k] != ' '
    ensures SplitOnSpace(s) == [s]
  {
    if s != [] {
      SplitWithoutSpace(s[1..]);
      assert [s[0]] + s[1..] == s;
    }
  }

  /** With no name anywhere the avatar reads "N", not "NA". */
  lemma NoNameGivesN()
    ensures AvatarInitialsAsWritten("", None) == "N"
  {
    SplitWithoutSpace("NA");
    assert FirstChars(["NA"]) == "N" + FirstChars([]);
  }

  /** The avatar text: the initials of the form's name, else of the user's name,
      and "NA" when there is neither. */
  function AvatarInitials(formName: string, userName: Option<string>): (r: string)
    ensures |r| <= 2
    ensures formName != "" ==> r == ToUpper(Take2(WordStarts(formName, true)))
    ensures formName == "" && userName.Some? && userName.value != "" ==>
              r == ToUpper(Take2(WordStarts(userName.value, true)))
    ensures formName == "" && (userName.None? || userName.value == "") ==> r == "NA"
  {
    if formName != "" then
      InitialsOf(formName)
    else if userName.Some? && userName.value != "" then
      InitialsOf(userName.value)
    else "NA"
  }
}
