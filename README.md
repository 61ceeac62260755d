# Employee Management System — verified model of the client-side logic

This project models the logic of the Employee Management System that is more
than CRUD plumbing, and proves properties of that model. It covers five parts:

- **Attendance screen** (module `Attendance`):
  - merging the record a sign-in or sign-out request returns into the list (upsert by id);
  - the screen after a request;
  - the display order, newest date first, ties broken by the highest id;
  - the time, date and duration formatters;
  - today's state, the Sign In / Sign Out button and the status badge.
- **Face-image upload middleware** (module `Upload`):
  - the stored file name: sanitised base name, unique suffix, original extension;
  - the MIME-type whitelist and the size limit.
- **Profile form** (module `Profile`):
  - the name and email checks, written as character predicates;
  - the update payload;
  - clearing the password after an update;
  - the status label and the avatar initials.
- **Registration page** (module `Registration`):
  - form editing;
  - the password checks, applied in order;
  - the payload without the confirmation and with empty foreign keys as null;
  - the page after the reply.
- **Departments manager** (module `Departments`):
  - the case-insensitive search filter;
  - the required-name guard, the form reset and the edit defaults.

Two modules are shared by the others:

- `JsText` models the JavaScript string operations these parts use: `trim`, `toLowerCase`/`toUpperCase` on ASCII, `includes`, `String(n)` and `padStart(2, "0")`.
- `Maybe` holds the option type that stands for a value that may be null or undefined.

Modelling conventions:

- **Dates.** Dates arrive already parsed: as instants in milliseconds, as calendar days, or as "missing" or "unparsable".
- **Clock time.** The local clock is an instant plus a fixed offset from UTC.
- **Record ids.** A record id is a natural number; 0 stands for a missing id, which the source treats the same way.
- **Attendance methods.** The upsert (`findIndex` followed by assignment or `unshift` on a copied array) and the display sort (`sort` on a copied array) are methods. The upsert uses a search loop. The sort works in place on an `array`. Both are proved against specification functions.
- **Everything else** is a pure function, as in the source.

## Model

| member | source | states |
|---|---|---|
| JsText.LeadingSpace | client/src/components/DepartmentsManager.jsx:17 | the count of leading characters that `trim` removes: all of them are whitespace and the next one is not |
| JsText.TrailingSpace | client/src/components/DepartmentsManager.jsx:17 | the count of trailing characters that `trim` removes: all of them are whitespace and the one before them is not |
| JsText.Trim | client/src/components/DepartmentsManager.jsx:17 | `trim` never lengthens its input, and neither end of its result is whitespace |
| JsText.TrimShape | client/src/components/DepartmentsManager.jsx:17 | `trim` keeps a contiguous piece of the input, removes only whitespace on either side, leaves no whitespace at either end, and returns "" exactly for an all-whitespace input |
| JsText.TrimIdempotent | client/src/components/DepartmentsManager.jsx:17 | trimming twice is trimming once |
| JsText.ToLower | client/src/components/DepartmentsManager.jsx:22 | lower-casing keeps the length and maps every character through the ASCII lower-case mapping |
| JsText.ToUpper | client/src/components/EmployeeProfile.jsx:101 | upper-casing keeps the length and maps every character through the ASCII upper-case mapping |
| JsText.Contains | client/src/components/DepartmentsManager.jsx:23 | the empty needle is contained in every text, and a contained needle is no longer than the haystack |
| JsText.ContainsIffOccurs | client/src/components/DepartmentsManager.jsx:23 | `includes` holds exactly when the needle occurs at some index of the haystack |
| JsText.NatToDecimal | client/src/components/EmployeeAttendance.jsx:152 | `String(n)` is a non-empty digit string with no leading zero; it has one digit below 10 and two digits below 100 |
| JsText.DecimalRoundTrip | client/src/components/EmployeeAttendance.jsx:152 | reading back the printed number gives the number |
| JsText.IntToDecimal | client/src/components/EmployeeAttendance.jsx:163-164 | `String(i)` starts with a minus sign exactly for a negative number; the digits after it read back as the number's magnitude |
| JsText.PadStart2 | client/src/components/EmployeeAttendance.jsx:152-153 | `padStart(2, "0")` gives the text's length or 2, whichever is larger, and leaves a text of two or more characters unchanged |
| JsText.PadStart2Content | client/src/components/EmployeeAttendance.jsx:152-153 | `padStart(2, "0")` keeps the text whole as the suffix, and every character added in front of it is a '0' |
| JsText.PadStart2Keeps | client/src/components/EmployeeAttendance.jsx:152-153 | `padStart(2, "0")` gives a length of at least 2, keeps the text as a suffix (never truncates) and keeps the decimal value |
| JsText.PaddedDecimal | client/src/components/EmployeeAttendance.jsx:175 | a printed and padded number is all digits, reads back as the number, has at least 2 digits, and exactly 2 below 100 |
| Attendance.FirstIndexWithId | client/src/components/EmployeeAttendance.jsx:77 | the index `findIndex` reports is the first row with the id, or -1 when no row has it |
| Attendance.FindIndexById | client/src/components/EmployeeAttendance.jsx:77 | the search loop returns exactly that first index, or -1 |
| Attendance.Upserted | client/src/components/EmployeeAttendance.jsx:76-83 | the record is always in the result; when some row has its id the length is unchanged; when none has, the result is the record followed by the old list |
| Attendance.UpsertRow | client/src/components/EmployeeAttendance.jsx:75-84 | the list after the callback is the specification `Upserted`: the first row with the id is replaced in place, otherwise the record is prepended |
| Attendance.UpsertReplacesInPlace | client/src/components/EmployeeAttendance.jsx:77-79 | when a row has the id, the record takes the first such row's index, the length is unchanged and every other row is unchanged |
| Attendance.UpsertPrepends | client/src/components/EmployeeAttendance.jsx:80-82 | when no row has the id, the result is the record followed by the old list, one longer |
| Attendance.UpsertKeepsOthers | client/src/components/EmployeeAttendance.jsx:76-83 | with the new record removed, the other rows are the old rows in their old relative order |
| Attendance.HasId | client/src/components/EmployeeAttendance.jsx:71 | a reply counts as a record only when it is present and its id is positive |
| Attendance.FailureMessage | client/src/components/EmployeeAttendance.jsx:98-99 | the error shown for a caught exception is the server's message when it sent one, and is never empty |
| Attendance.AfterFallback | client/src/components/EmployeeAttendance.jsx:86-100 | on the fallback path, today's record is the refreshed one (kept when the refresh failed); the list is the one re-read, and success is reported exactly when the re-read record has the time set; a failed re-read keeps the old list and shows the server's message or the fallback error; exactly one message is shown |
| Attendance.AfterReply | client/src/components/EmployeeAttendance.jsx:62-103 | a reply with an id is upserted and becomes today's record; a reply without an id never enters the list and takes the fallback path; a thrown request leaves today's record and the list unchanged and sets an error; exactly one of error and success is shown |
| Attendance.CompareSign | client/src/components/EmployeeAttendance.jsx:180-186 | the comparator is negative exactly when the first row has the later date, or the same date and the higher id; it is zero exactly when both date and id are equal |
| Attendance.DisplayOrderMeaning | client/src/components/EmployeeAttendance.jsx:180-186 | the comparator orders by date, newest first, then by id, highest first |
| Attendance.SortForDisplay | client/src/components/EmployeeAttendance.jsx:180-186 | sorting the array in place leaves it display-ordered and a permutation of its old contents |
| Attendance.Displayed | client/src/components/EmployeeAttendance.jsx:178-188 | the displayed list is display-ordered and a permutation of the items |
| Attendance.ClockReading | client/src/components/EmployeeAttendance.jsx:152-153 | the local clock's hours and minutes (hours < 24, minutes < 60) together give the minute of the local day |
| Attendance.FormatTime | client/src/components/EmployeeAttendance.jsx:148-155 | the time prints as "-" exactly when it is missing or unparsable; otherwise it has five characters with the colon in the middle |
| Attendance.FormatTimeShape | client/src/components/EmployeeAttendance.jsx:150-154 | a valid time prints as "HH:MM" with two digits each and minutes below 60, reading back as the minute of the local day |
| Attendance.FormatDateDMY | client/src/components/EmployeeAttendance.jsx:157-165 | the text is never empty; a missing date prints "-"; an unparsable (non-empty) one prints its first ten characters (all of it when shorter); a valid one prints something longer than six characters with dashes at positions 2 and 5 |
| Attendance.FormatDateValid | client/src/components/EmployeeAttendance.jsx:161-164 | a valid date prints as the two-digit day, "-", the two-digit 1-based month, "-", then the year |
| Attendance.MinutesTextShape | client/src/components/EmployeeAttendance.jsx:173-175 | a minute count prints as "HH:MM": HH at least two digits and never cut short, MM two digits below 60, and HH*60+MM reads back as the count |
| Attendance.FormatDuration | client/src/components/EmployeeAttendance.jsx:167-176 | the duration is "-" exactly when an end is missing or unparsable or the end is before the start |
| Attendance.FormatDurationText | client/src/components/EmployeeAttendance.jsx:172-175 | otherwise the duration is "HH:MM" with HH at least two digits and never cut short, MM two digits below 60, and HH*60+MM the whole minutes elapsed |
| Attendance.TodayStateOf | client/src/components/EmployeeAttendance.jsx:190-197 | signed in and signed out hold exactly when today's record has a sign-in and a sign-out time respectively |
| Attendance.ActionButton | client/src/components/EmployeeAttendance.jsx:204-224 | Sign In is offered exactly when today has no sign-in time and is disabled only while busy; Sign Out is disabled while busy or once a sign-out time exists, and then reads "Signed Out" |
| Attendance.StatusBadgeAsWritten | client/src/components/EmployeeAttendance.jsx:282-294 | as written: "Present" exactly when both times are set, "Signed In" exactly when only the sign-in time is, the garbled text otherwise; only "Present" gets the success tone |
| Attendance.BadgeShowsMojibake | client/src/components/EmployeeAttendance.jsx:293 | as written, a row without a sign-in time shows three stray characters instead of a dash |
| Attendance.StatusBadge | client/src/components/EmployeeAttendance.jsx:282-294 | "Present" exactly when both times are set, "Signed In" exactly when only the sign-in time is, a dash otherwise; only "Present" gets the success tone |
| Upload.LastDot | server/middleware/upload.js:15 | the index of the last dot, with no dot after it, or -1 |
| Upload.ExtName | server/middleware/upload.js:15 | an extension is empty or a proper suffix of the name that starts with a dot |
| Upload.ExtNameShape | server/middleware/upload.js:15 | the extension is empty exactly when the name has no dot after its first character (or is ".."); it holds no dot after its first character, so it starts at the name's last dot |
| Upload.BaseName | server/middleware/upload.js:16 | the base name is a prefix of the path; when the path ends with the non-empty suffix, base name and suffix together give the path; otherwise it is the whole path |
| Upload.BaseNameExtNameRoundTrip | server/middleware/upload.js:15-16 | base name followed by extension gives back the original name |
| Upload.Sanitize | server/middleware/upload.js:16 | the sanitised text is no longer than the input and holds only ASCII letters, digits, `_` and `-` |
| Upload.SanitizeCounts | server/middleware/upload.js:16 | every allowed character is kept as often as it occurs, and every other character is removed |
| Upload.SanitizeConcat | server/middleware/upload.js:16 | sanitising works character by character: sanitising a concatenation concatenates the sanitised parts |
| Upload.SanitizeKeepsClean | server/middleware/upload.js:16 | a text made only of allowed characters is unchanged |
| Upload.SanitizeIdempotent | server/middleware/upload.js:16 | sanitising twice is sanitising once |
| Upload.StoredBase | server/middleware/upload.js:16-18 | the base part of the stored name is never empty and holds only ASCII letters, digits, `_` and `-` |
| Upload.StoredExt | server/middleware/upload.js:15-18 | the extension part of the stored name is never empty and starts with a dot |
| Upload.StoredName | server/middleware/upload.js:14-19 | the stored name contains no '/', starts with the stored base followed by "-", and ends with the stored extension |
| Upload.StoredNameParts | server/middleware/upload.js:15-18 | the stored base is non-empty and holds only allowed characters: it is the sanitised base name of the original, or "face" when that is empty; the stored extension starts with a dot and is the original extension exactly as given, or ".jpg" when there is none |
| Upload.CleanNameKept | server/middleware/upload.js:15-18 | a clean base name with a clean extension is stored as base, "-", timestamp, "-", random number, extension |
| Upload.FileFilter | server/middleware/upload.js:22-26 | exactly image/jpeg, image/png and image/jpg are accepted; anything else is rejected with "Only JPEG/PNG images are allowed" |
| Upload.WithinSizeLimit | server/middleware/upload.js:31 | a file is accepted exactly up to 5242880 bytes |
| Profile.IsValidName | client/src/components/EmployeeProfile.jsx:69-74 | a name is valid exactly when, trimmed, it has at least two characters, each an ASCII letter, a space or a dot |
| Profile.EmailCheckSound | client/src/components/EmployeeProfile.jsx:68 | every email the character checks accept matches the shape of the regular expression |
| Profile.EmailCheckComplete | client/src/components/EmployeeProfile.jsx:68 | every email of the regular expression's shape passes the character checks |
| Profile.EmailCheckMatchesRegex | client/src/components/EmployeeProfile.jsx:68 | the character checks and the regular expression accept the same strings: a non-empty local part, '@', a domain with a '.' that is not its first character and has at least two characters after it, no whitespace and no second '@' |
| Profile.IsValidEmail | client/src/components/EmployeeProfile.jsx:75 | the email passes exactly when its trimmed text matches the regular expression |
| Profile.Submit | client/src/components/EmployeeProfile.jsx:71-87 | submission happens exactly when both fields are valid, and each error belongs to its field; the payload has the trimmed name and email, the password only when non-empty, no head when undefined, null for an empty head, and the number otherwise |
| Profile.AfterUpdate | client/src/components/EmployeeProfile.jsx:88-90 | an update that returns an id clears the password and nothing else; otherwise the form is unchanged |
| Profile.StatusLabel | client/src/components/EmployeeProfile.jsx:91 | the label (computed the same way at line 37) is "Active" or "Inactive", and "Active" exactly for the boolean true and the string "Active" |
| Profile.FirstCharsAreWordStarts | client/src/components/EmployeeProfile.jsx:101 | splitting on spaces and taking each word's first character yields exactly the characters that start a word |
| Profile.InitialsOf | client/src/components/EmployeeProfile.jsx:101 | the initials are the first word starts, at most two, upper-cased |
| Profile.AvatarInitialsAsWritten | client/src/components/EmployeeProfile.jsx:101 | as written: at most two characters, the initials of the form name, otherwise of the user name (the fallback case is Profile.NoNameGivesN) |
| Profile.NoNameGivesN | client/src/components/EmployeeProfile.jsx:101 | as written, with no form name and no user name the avatar reads "N" |
| Profile.AvatarInitials | client/src/components/EmployeeProfile.jsx:101 | at most two characters: the initials of the form name, otherwise of the user name, otherwise "NA" |
| Registration.HandleChange | client/src/pages/Register.jsx:64-72 | only the named field changes, to the new value; both messages are cleared; every input stays present |
| Registration.Sanitized | client/src/pages/Register.jsx:93-100 | the payload has every field but `confirmPassword`; an empty foreign key becomes null; every other value is sent unchanged |
| Registration.Check | client/src/pages/Register.jsx:80-100 | the form is refused exactly when the passwords differ or the password is shorter than 6; a mismatch is reported first, whatever the length; otherwise the payload is the sanitised form |
| Registration.PayloadContents | client/src/pages/Register.jsx:93-100 | whatever reaches the server has no confirmation, a confirmed password of at least six characters, name, email, password and role as typed, and each foreign key null exactly when it was empty |
| Registration.Submit | client/src/pages/Register.jsx:74-123 | a refused form keeps the form and shows the check's message; a success resets to the empty form with role "employee" and shows the success message; a failure keeps the form and shows the server's message or the fallback; exactly one message is shown |
| Departments.Matches | client/src/components/DepartmentsManager.jsx:20-27 | the empty needle matches every row, and a matching row has a name or status at least as long as the needle |
| Departments.Filtered | client/src/components/DepartmentsManager.jsx:16-28 | a blank query shows every row; otherwise the result is no longer than the items and holds exactly the items that match the trimmed, lower-cased query |
| Departments.KeepMatching | client/src/components/DepartmentsManager.jsx:20-27 | the result is no longer than the items, and holds exactly the items whose lower-cased name or status contains the needle |
| Departments.BlankQueryKeepsAll | client/src/components/DepartmentsManager.jsx:17-18 | an empty or all-whitespace query returns the items unchanged |
| Departments.QueryKeepsMatching | client/src/components/DepartmentsManager.jsx:16-28 | any other query keeps each matching item as often as it occurs, drops every other item, and never adds one |
| Departments.FilterCounts | client/src/components/DepartmentsManager.jsx:20-27 | the filter keeps each matching item as often as it occurs and drops every other item |
| Departments.FilterConcat | client/src/components/DepartmentsManager.jsx:20-27 | the filter works item by item, so the kept items stay in their order |
| Departments.FilterIdempotent | client/src/components/DepartmentsManager.jsx:20-27 | filtering the filtered rows again changes nothing |
| Departments.FilteredIdempotent | client/src/components/DepartmentsManager.jsx:16-28 | searching the search result with the same query changes nothing |
| Departments.MissingFieldsNeverMatch | client/src/components/DepartmentsManager.jsx:21-26 | a row with neither name nor status never matches a non-blank query |
| Departments.ResetForm | client/src/components/DepartmentsManager.jsx:48-52 | the form is back to name "" and status "Active", nothing is being edited, nothing is being saved |
| Departments.HandleEdit | client/src/components/DepartmentsManager.jsx:77-81 | the row is being edited; a missing name loads as "" and a missing status as "Active" |
| Departments.SubmitRequest | client/src/components/DepartmentsManager.jsx:54-67 | a name that is blank after trimming sends nothing; otherwise the trimmed name and the status go to an update of the edited row when one is being edited, else to a creation |
| Departments.HandleSubmit | client/src/components/DepartmentsManager.jsx:54-75 | a blank name only sets "Name is required"; a save resets the form; a failure keeps the form and shows the server's message or "Operation failed" |

## Left out

- HTTP requests, the service wrappers, React state and rendering, styling and `window.scrollTo`: replies arrive as parameters, and state updates are functions from old state to new state.
- Timers:
  - the three-second clearing of the success message;
  - the 500 ms retry inside the refresh of today's record (its final value is a parameter);
  - the redirect after registration.
- JavaScript `Date` parsing and local time:
  - instants and calendar days are passed already parsed;
  - the local clock is modelled with one fixed UTC offset, so daylight-saving changes are not modelled.
- Attendance.Compare: the sort key `date || attendance_date` is taken as an already parsed instant. An unparsable key, which makes the comparator return NaN, is not modelled.
- Attendance.SortForDisplay: states that the result is ordered and a permutation. It does not state that rows with the same date and id keep their relative order.
- Attendance.AfterReply does not model the `saving` flag.
- Case mapping (`toLowerCase`, `toUpperCase`) covers ASCII only. Strings are sequences of Unicode characters, not UTF-16 code units, so `.length` and `w[0]` differ from the source for characters outside the Basic Multilingual Plane.
- Profile.Submit: the reporting head is the select's value, either "" or a decimal id. `Number()` is modelled only on those strings.
- Profile: three parts of the component are not modelled:
  - loading the profile;
  - the "Profile updated" and "Update failed" messages;
  - the reporting-head list, which is sorted with the locale-dependent `localeCompare`.
- Profile.StatusLabel covers status values that are booleans, strings, integers, null or undefined. Non-integral numbers never stringify to "Active", so they are not modelled.
- Registration: the lists of departments, designations and employees that fill the selects are network reads and are not modelled.
- Departments.HandleSubmit: the list reload after a successful save, and its own error message, are not modelled.
- Departments: deleting a department is a confirmation dialog plus a request and is not modelled.
- Upload: three parts of the middleware are not modelled:
  - the creation of the upload directory;
  - the destination callback;
  - multer's enforcement of the size limit, which is modelled only as the comparison it makes.
- Upload.StoredName: `Date.now()` and `Math.round(Math.random() * 1e9)` are parameters (non-negative integers).
- Upload: file names are bare, because the multipart parser removes any directory part before this code runs.

## Findings

| source | as written | input that shows it | evidently intended | confidence | as-written member | corrected member |
|---|---|---|---|---|---|---|
| client/src/components/EmployeeAttendance.jsx:293 | the badge text for a row without a sign-in time is the three characters "â€”", the em dash's UTF-8 bytes decoded as Windows-1252 | any row with no `sign_in_time` | an em dash, as the departments table shows for an empty status | high, not executed | Attendance.BadgeShowsMojibake | Attendance.StatusBadge |
| client/src/components/EmployeeProfile.jsx:101 | the fallback "NA" is itself passed through the initials extraction | form name "" and no signed-in user name | the avatar shows "NA" | medium, not executed | Profile.NoNameGivesN | Profile.AvatarInitials |
