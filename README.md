# JoinEazy assignment tracker — a Dafny model of its core

JoinEazy is a single-page React application in which students see their
assignments and mark them as submitted, and professors (admins) create
assignments and follow who has submitted them. Everything lives in one
client-side store: a reducer over the current user, the assignments, the
users and the submission records, seeded with mock data. This project models
that store and the logic of the three components that read it and dispatch to
it, and proves what they promise.

- `seqs.dfy` (module `Seqs`): `Array.prototype.filter`, `find` and
  `findIndex` as `Filter`, `Find` and `FindIndex`, and the counting facts the
  dashboards rely on.
- `text.dfy` (module `Text`): the decimal text of a non-negative integer (the
  `Date.now()` ids and the day counts in badges), `String.prototype.trim`
  with ECMAScript's white-space set, and `split('T')[0]` on an ISO timestamp.
- `number_input.dfy` (module `NumberInput`): the text a number input
  reports, how `Number(text)` and `parseInt(text)` read it, and its integer
  part.
- `percent.dfy` (module `Percent`): the `whole > 0 ? part / whole * 100 : 0`
  completion percentage, before `Math.round`.
- `store.dfy` (module `Store`): the reducer `appReducer` as the pure function
  `Reduce`, the provider's helpers (`switchUser`,
  `getAssignmentsForCurrentUser`, `getSubmissionStatus`,
  `getStudentSubmissions`), the store invariant `Valid` (unique assignment
  ids, unique submission ids, at most one record per assignment/student
  pair), and the seed data.
- `student_dashboard.dfy` (module `StudentDashboard`): the status badge, the
  "Mark as Submitted" button, the progress counts and `confirmSubmission`.
- `admin_dashboard.dfy` (module `AdminDashboard`): the student list,
  per-assignment statistics, the overall statistics, accumulated by a loop as
  the `forEach` does, and the per-student submitted mark.
- `create_assignment_modal.dfy` (module `CreateAssignmentModal`):
  `validateForm` as a method that builds the error map step by step,
  `handleSubmit` as the method that validates and dispatches, the record it
  builds, and `handleChange` with its error clearing.

The reducer is pure, as in React: `Reduce(s, action, clock)` returns the new
state. `clock` carries what `Date.now()` and `new Date().toISOString()` give
while the action is reduced (`Clock(millis, iso)`). Whether a due date is
before today and whether a string parses as a URL are predicates passed in
(`isPast`, `isValidUrl`). The number of days until a due date is an integer
input of the student dashboard.

## Model

| member | source | states |
|---|---|---|
| Store.Reduce | src/context/AppContext.jsx:114-177 | users never change; each field changes only under its own action (current user, loading flag, error); add appends the payload; update and delete go through `ReplaceById` and `RemoveById`; submit goes through `Upsert`; an unknown action returns the state unchanged; at most one record per pair is preserved by every action |
| Store.ReplaceById | src/context/AppContext.jsx:125-131 | same length and order; exactly the positions whose id is the payload's hold the payload; every other position is unchanged |
| Store.RemoveById | src/context/AppContext.jsx:133-137 | an assignment survives if and only if it was present and its id differs from the deleted id |
| Store.RemoveByIdConcat | src/context/AppContext.jsx:133-137 | deletion distributes over concatenation, so the survivors keep their relative order |
| Store.AssignmentsForCurrentUserConcat | src/context/AppContext.jsx:211-217 | the assignments a user sees keep their stored order: the view of a concatenated list is the concatenation of the views |
| Store.GetStudentSubmissionsConcat | src/context/AppContext.jsx:223-225 | an assignment's records are listed in their stored order: the list for concatenated records is the concatenation of the lists |
| Store.RemoveAbsentId | src/context/AppContext.jsx:133-137 | deleting an id no assignment carries leaves the list unchanged |
| Store.RefreshById | src/context/AppContext.jsx:148-152 | same length; the records carrying the given id are marked submitted, confirmed and stamped with the time; all others are unchanged |
| Store.Upsert | src/context/AppContext.jsx:139-166 | if the pair has a record, the length is kept, that first record and every record sharing its id are marked submitted now, and the rest are untouched; otherwise exactly one new submitted record `sub_<millis>` is appended; no record is lost, re-keyed or set back to pending; at most one record per pair is preserved, and so are distinct ids when the pair has a record or the new id is fresh |
| Store.ReducePreservesValid | src/context/AppContext.jsx:114-177 | each action keeps assignment ids unique, submission ids unique and pairs unique, provided an added assignment's id is new and, when a submit appends a record, the generated submission id is new |
| Store.FilterKeepsIdsDistinct | src/context/AppContext.jsx:211-217 | filtering a list of assignments with distinct ids keeps them distinct, as the admin's own view does |
| Store.SubmitThenLookup | src/context/AppContext.jsx:139-166 | after a submit the lookup for that pair finds a record that is submitted, confirmed and stamped with the reduction's time |
| Store.SubmitNewPair | src/context/AppContext.jsx:154-165 | for a pair without a record, a submit appends exactly the new record, and the lookup returns it |
| Store.SubmitLeavesOneRecord | src/context/AppContext.jsx:139-166 | on a store with unique pairs, a submit leaves exactly one record for its pair, and that record is submitted |
| Store.SubmitTwice | src/context/AppContext.jsx:139-166 | submitting the same pair twice still leaves exactly one record for it, and it is submitted |
| Store.SubmitKeepsSubmitted | src/context/AppContext.jsx:139-166 | a submit never turns any pair's lookup from submitted back to not submitted |
| Store.AdminViewAfterAdd | src/context/AppContext.jsx:119-123 | after an add, an admin's view is the old view plus the new assignment at the end if they are its author, and unchanged otherwise |
| Store.SwitchUser | src/context/AppContext.jsx:205-210 | for a known id, the first user with that id becomes the current user and nothing else changes; for an unknown id the state is unchanged |
| Store.AssignmentsForCurrentUser | src/context/AppContext.jsx:211-217 | an admin sees exactly the assignments they created; anyone else sees the whole list |
| Store.GetSubmissionStatus | src/context/AppContext.jsx:218-222 | a found record belongs to the store, has the pair and is the first record with that pair, with the student defaulting to the current user; nothing is found exactly when no record has the pair |
| Store.GetStudentSubmissions | src/context/AppContext.jsx:223-225 | a record is returned if and only if it is in the store and belongs to the assignment |
| Store.SeedIsValid | src/context/AppContext.jsx:7-112 | the seed state satisfies the store invariant |
| Store.SeedSwitchToProfessor | src/context/AppContext.jsx:40-76 | switching to `prof_001` makes the seed's professor the current user |
| Store.SeedProfessorAuthored | src/context/AppContext.jsx:7-38 | the professor authored exactly the first two seed assignments |
| Store.SeedProfessorView | src/context/AppContext.jsx:211-217 | after switching to the professor, their view is the first two seed assignments |
| Store.SeedAssignment001Submissions | src/context/AppContext.jsx:78-103 | the seed holds two records for `assign_001`, one of them submitted |
| Store.SeedSubmitScenario | src/context/AppContext.jsx:78-103 | `student_002` has no record for `assign_002`; after a submit the lookup returns exactly the new submitted record |
| StudentDashboard.Classify | src/components/StudentDashboard.jsx:34-74 | the four statuses are exclusive and exhaustive: submitted if and only if the record is submitted; otherwise overdue if and only if fewer than 0 days are left, urgent for 0 to 3 days, pending beyond; each status has its own colour and badge text, with "1 day left" singular |
| StudentDashboard.GetStatusInfo | src/components/StudentDashboard.jsx:30-75 | the badge says submitted only when the current user has a submitted record for the assignment, and never when they have no record |
| StudentDashboard.OfferMarkSubmitted | src/components/StudentDashboard.jsx:224-232 | the button is offered if and only if the current user's record for the assignment is not submitted |
| StudentDashboard.GetProgress | src/components/StudentDashboard.jsx:94-100 | total is the number of assignments; submitted is at most the total; pending is the difference and is never negative; the percentage lies between 0 and 100 and is 0 when there are no assignments |
| StudentDashboard.ConfirmSubmission | src/components/StudentDashboard.jsx:82-92 | dispatches a submit of the selected assignment by the current user, then closes the modal and clears the selection |
| StudentDashboard.ConfirmMarksSubmitted | src/components/StudentDashboard.jsx:82-92 | once the confirmed submit is reduced, the selected assignment's badge says submitted, whatever its due date, and the button is gone |
| StudentDashboard.MarkAsSubmittedFlow | src/components/StudentDashboard.jsx:77-92 | selecting an assignment (`handleSubmit`) and then confirming dispatches a submit of that assignment by the current user and closes the modal; once reduced, the assignment's badge says submitted |
| StudentDashboard.SubmitNeverLowersProgress | src/components/StudentDashboard.jsx:94-99 | no submit, by any student, lowers the current user's submitted count |
| StudentDashboard.ConfirmRaisesProgress | src/components/StudentDashboard.jsx:82-99 | confirming an assignment that was not yet submitted raises the submitted count strictly |
| AdminDashboard.Students | src/components/AdminDashboard.jsx:11 | a user is listed if and only if they are in the store with the student role |
| AdminDashboard.StudentsConcat | src/components/AdminDashboard.jsx:11 | the students are listed in the order of the users: the students of a concatenation are the concatenation of the students |
| AdminDashboard.SubmittedCount | src/components/AdminDashboard.jsx:24-25 | filtering the assignment's records, then by status, counts exactly the store's submitted records for that assignment |
| AdminDashboard.GetAssignmentStats | src/components/AdminDashboard.jsx:23-34 | submitted is the number of submitted records for the assignment; total is the number of students; the percentage is non-negative and is 0 when there are no students |
| AdminDashboard.GetOverallStats | src/components/AdminDashboard.jsx:36-54 | counts the admin's own assignments; the possible total is that count times the number of students; the submissions are the per-assignment counts added up; the percentage is non-negative and is 0 when nothing is possible |
| AdminDashboard.SumSubmitted | src/components/AdminDashboard.jsx:39-44 | the loop's running total ends as the sum of the per-assignment submitted counts |
| AdminDashboard.SubmittedSumCountsRecords | src/components/AdminDashboard.jsx:39-44 | over assignments with distinct ids, the sum counts each submitted record of those assignments exactly once, so it never exceeds the number of records |
| AdminDashboard.TotalSubmissionsCountsRecords | src/components/AdminDashboard.jsx:36-44 | on a valid store, the overall total is the number of submitted records for the admin's assignments |
| AdminDashboard.IsShownSubmitted | src/components/AdminDashboard.jsx:222-224 | a student is marked submitted only if they have a submitted record for the assignment, and never when they have no record |
| AdminDashboard.AdminAndStudentViewsAgree | src/components/AdminDashboard.jsx:222-224 | the admin's mark for a student is the same as the student's own lookup |
| AdminDashboard.ShownSubmittedIff | src/components/AdminDashboard.jsx:222-224 | with one record per pair, a student is marked submitted if and only if some record of theirs for the assignment is submitted |
| Percent.Of | src/components/AdminDashboard.jsx:27 | 0 for an empty whole; never negative; at most 100 when the part is at most the whole; exactly 100 when they are equal |
| CreateAssignmentModal.MessageText | src/components/CreateAssignmentModal.jsx:22-50 | the texts of the seven validation messages, and the empty text a cleared error holds |
| CreateAssignmentModal.OnlyClearedIsEmpty | src/components/CreateAssignmentModal.jsx:22-50 | a message's text is empty if and only if the message is the cleared one |
| CreateAssignmentModal.IsBlank | src/components/CreateAssignmentModal.jsx:22 | `!s.trim()` holds if and only if every character of the text is white space |
| CreateAssignmentModal.ScoreTooLow | src/components/CreateAssignmentModal.jsx:48 | an empty score and a negative score are too low; without an exponent a score is too low exactly when it is negative or its digits before the point are worth 0 |
| CreateAssignmentModal.ValidateForm | src/components/CreateAssignmentModal.jsx:19-54 | a field has an error if and only if its check fails, and the message is the one that check gives; the result is true if and only if no error was recorded, and if and only if every field passes |
| CreateAssignmentModal.HandleSubmit | src/components/CreateAssignmentModal.jsx:65-90 | an invalid form records its errors and dispatches nothing; a valid form has a score of at least 1 and dispatches exactly one add of the new record |
| CreateAssignmentModal.NewAssignment | src/components/CreateAssignmentModal.jsx:77-86 | the stored score is the integer part of the entered number, so at least 1 once validation passed (the corrected reading of line 83, see Findings); the author is the current user |
| CreateAssignmentModal.ScoreParsedAsZero | src/components/CreateAssignmentModal.jsx:48-83 | a form that passes every check, with the score typed as `0.5e1`, gets 0 from `parseInt` of line 83, while its integer part is 5 |
| CreateAssignmentModal.InitialFormErrors | src/components/CreateAssignmentModal.jsx:7-50 | the form as the modal opens fails exactly the title, description, due date and drive link checks, each with its "required" message, and its score of 100 passes |
| CreateAssignmentModal.TrimmedIsTidy | src/components/CreateAssignmentModal.jsx:79-82 | trimming a text that is not all white space gives a non-empty text that neither starts nor ends with white space; trimming such a text changes nothing |
| CreateAssignmentModal.ValidFormFields | src/components/CreateAssignmentModal.jsx:19-54 | a valid form has non-blank texts, a non-empty due date that is not past, a drive link that passes the URL check and a score of at least 1 |
| CreateAssignmentModal.NewAssignmentWellFormed | src/components/CreateAssignmentModal.jsx:77-86 | from a valid form, the title, description and link are the trimmed inputs and are tidy; the link passed the URL check; the due date is the non-empty input; the creation date is a prefix of the timestamp with no `T` |
| CreateAssignmentModal.NewAssignmentIdsDiffer | src/components/CreateAssignmentModal.jsx:78 | records created at different milliseconds get different ids |
| CreateAssignmentModal.AuthorSeesNewAssignment | src/components/CreateAssignmentModal.jsx:77-88 | once the dispatched add is reduced, the author's dashboard shows their old view plus the new record at the end |
| CreateAssignmentModal.HandleChange | src/components/CreateAssignmentModal.jsx:92-100 | the named field takes the new value and the other fields keep theirs; a displayed error of that field is blanked; every other message and the set of error keys stay; with no displayed error the errors are unchanged |
| CreateAssignmentModal.ChangeKeepsOtherChecks | src/components/CreateAssignmentModal.jsx:92-100 | editing one field never changes what validation says about any other field |
| CreateAssignmentModal.HandleChangeIdempotent | src/components/CreateAssignmentModal.jsx:92-100 | repeating the same edit changes nothing more |
| NumberInput.Render | src/components/CreateAssignmentModal.jsx:204-207 | the text the number input reports is non-empty, starts with `-` exactly when the number is negative and never with `+`, and after the sign holds the digits before the point followed by a non-digit or the end |
| NumberInput.RenderInjective | src/components/CreateAssignmentModal.jsx:204-207 | different numbers are reported as different texts, so `Value` and `ParseInt`, defined on the pieces, depend on the reported text alone |
| NumberInput.Value | src/components/CreateAssignmentModal.jsx:48 | `Number(text)` has the text's sign; without an exponent a non-negative text denotes at least its digits before the point and less than one more, and the number is the signed mantissa |
| NumberInput.ParseInt | src/components/CreateAssignmentModal.jsx:83 | `NaN` exactly when the text has no digit before the point; otherwise a number whose absolute value, sign undone, is the value of those digits, whatever the fraction and exponent |
| NumberInput.ScanInt | src/components/CreateAssignmentModal.jsx:83 | `parseInt` of a string without leading white space or `0x`: `NaN` exactly when no digit follows the optional sign |
| NumberInput.ParseIntReadsText | src/components/CreateAssignmentModal.jsx:83 | `ParseInt` of a number is `parseInt` of the text the input reports for it |
| NumberInput.IntegerPart | src/components/CreateAssignmentModal.jsx:83 | the largest integer not above the number the text denotes |
| NumberInput.ParseIntAgreesWithoutExponent | src/components/CreateAssignmentModal.jsx:48-83 | on every text without an exponent whose exact value is at least 1, `parseInt` and the integer part agree (in exact arithmetic; see Left out for doubles) |
| NumberInput.ParseIntIgnoresExponent | src/components/CreateAssignmentModal.jsx:83 | `0.5e1` and `.5e1` both denote 5, yet `parseInt` reads them as 0 and `NaN` |
| Seqs.Filter | src/context/AppContext.jsx:224 | `filter` keeps exactly the elements that satisfy the test, and no more than there were |
| Seqs.FilterConcat | src/context/AppContext.jsx:224 | `filter` keeps the relative order: filtering a concatenation filters each part |
| Seqs.FindIndex | src/context/AppContext.jsx:140-143 | the position of the first element that satisfies the test, or nothing exactly when none does |
| Seqs.Find | src/context/AppContext.jsx:219-221 | `find` returns an element of the list that satisfies the test and that no earlier element does, or nothing exactly when none does |
| Text.Trim | src/components/CreateAssignmentModal.jsx:79-82 | the result is empty if and only if the text is all white space; otherwise it is the slice between the leading and the trailing white space, and neither starts nor ends with white space |
| Text.TrimIdempotent | src/components/CreateAssignmentModal.jsx:79-82 | trimming twice is trimming once |
| Text.Decimal | src/components/CreateAssignmentModal.jsx:78 | the text is non-empty, all digits and without a leading zero |
| Text.DecimalRoundTrip | src/components/CreateAssignmentModal.jsx:78 | reading the decimal text back gives the number |
| Text.DatePart | src/components/CreateAssignmentModal.jsx:85 | the result is a prefix of the timestamp, contains no `T`, and is followed by a `T` if it is shorter than the timestamp |

## Left out

- `localStorage`: the saved user is not restored or persisted (src/context/AppContext.jsx:182-199), because it is browser storage outside the store.
- `useApp` and the React context plumbing, `SubmissionModal`, `Header` and `App`: they are not part of this model.
- Rendering: icons, class names, colours other than the badge's colour name, and the markup.
- Date arithmetic: `getDaysUntilDue`, `formatDate` and `getTomorrowDate` are not modelled. The number of days left is an input, and "is the due date before today" is the predicate `isPast`.
- `isValidUrl`: whether `new URL(...)` throws is the predicate `isValidUrl`, because URL parsing is a browser service.
- `Math.round` of the percentages: `Percent.Of`, `GetAssignmentStats` and `GetOverallStats` give the percentage before rounding, because the model has no floating point.
- `AdminDashboard.GetAssignmentStats`: does not state that the percentage is at most 100, because the source divides by the number of students, not by the number of records.
- `handleSubmit`'s one-second wait and the `isSubmitting` flag: timing is not modelled. `HandleSubmit` returns the actions it dispatches, and `onClose` is left out.
- `Store.ReducePreservesValid`: takes as a precondition that an added assignment's id is new and, when a submit appends a record, that the generated `sub_<millis>` id is new. `Date.now()` can repeat within one millisecond, and the source does not check this.
- Number formatting: ids and badge counts use `Text.Decimal`, which is what JavaScript prints for integers below 10^21. Exponent notation above that is not modelled.
- `CreateAssignmentModal.NewAssignment`: stores the integer part of the entered number, not `parseInt` of its text as line 83 does. The two differ on texts with an exponent, where the source can store a score below 1 (0 for `0.5e1`, `NaN` for `.5e1`), and also on texts without one whose value rounds up to 1 as a double, such as `0.99999999999999999999`, which passes line 48 in the source and is stored as 0; see Findings. `NumberInput.ParseIntAgreesWithoutExponent` holds for exact values only.
- `CreateAssignmentModal.ScoreTooLow`: compares the exact value of the text with 1, while line 48 compares the nearest double. A text below 1 that rounds up to 1, such as `0.99999999999999999999`, is rejected by the model and accepted by the source.
- Floating point: `NumberInput.Value` is the exact number a text denotes. Rounding to the nearest double, `Infinity` for huge exponents and `-0` are not modelled.
- `CreateAssignmentModal.NewAssignment`: requires a score of at least 1, because `handleSubmit` builds the record only after `validateForm` has passed.
- Browser constraint validation (`min`, `max` and `type` on the inputs) is not modelled. Only `validateForm`'s own checks are. The number input's `min="1"`, `max="1000"` and default step of 1 also let `0.5e1` through, because it denotes 5.
- `StudentDashboard.ConfirmSubmission`: requires a selected assignment, because the confirmation modal opens only after `handleSubmit` selects one; `StudentDashboard.MarkAsSubmittedFlow` follows that path from any view.
- `CreateAssignmentModal.IsBlank`: is a method around `Text.Trim`, and `ValidateForm` uses its contract. `FieldError` states the same check as "all white space".
- Error messages are the datatype `Message`, and `MessageText` maps each one to its exact source string. The error object is a map from field to message.
- Seed data: the model follows the source file, with five users, three assignments and three submission records.

## Findings

| source | as written | input that shows it | evidently intended | confidence | as-written member | corrected member |
|---|---|---|---|---|---|---|
| src/components/CreateAssignmentModal.jsx:83 | `parseInt(formData.maxScore)` reads the score's text up to its first non-digit, while validation at line 48 compares `Number(text)` with 1 | the score typed as `0.5e1` (or `.5e1`) with the other fields valid: validation passes because the text denotes 5, and the record is stored with a score of 0 (or `NaN`); likewise `0.99999999999999999999`, which becomes 1 as a double, passes, and is stored as 0 | the stored score is the validated number as an integer, so at least 1 | high for the value `parseInt` returns; the `0.99999999999999999999` case rests on rounding to a double, which the model does not capture; not executed | CreateAssignmentModal.ScoreParsedAsZero | CreateAssignmentModal.NewAssignment |
