/** The logic of `src/components/StudentDashboard.jsx` over the store: the
    status badge of each assignment, the progress counts, and the
    confirmation that dispatches `SUBMIT_ASSIGNMENT`. The number of days
    left until the due date is an input. */
module StudentDashboard {
  import opened Seqs
  import Store
  import Text
  import Percent

  /** The `status` of the record `getStatusInfo` returns. */
  datatype Tag = Submitted | Overdue | Urgent | Pending

  /** `getStatusInfo`'s record: its status, colour name and badge text. */
  datatype StatusInfo = StatusInfo(status: Tag, color: string, text: string)

  predicate IsSubmitted(submission: Option<Store.Submission>) {
    submission.Some? && submission.value.status == Store.Submitted
  }

  /** The four-way classification: a submitted record wins whatever the
      date; then overdue, urgent within three days, pending beyond. */
  function Classify(submission: Option<Store.Submission>, daysLeft: int): (r: StatusInfo)
    ensures r.status == Submitted <==> IsSubmitted(submission)
    ensures r.status == Overdue <==> !IsSubmitted(submission) && daysLeft < 0
    ensures r.status == Urgent <==> !IsSubmitted(submission) && 0 <= daysLeft <= 3
    ensures r.status == Pending <==> !IsSubmitted(submission) && 3 < daysLeft
    ensures r.status == Submitted ==> r.text == "Submitted" && r.color == "success"
    ensures r.status == Overdue ==> r.text == "Overdue" && r.color == "danger"
    ensures r.status == Urgent ==> r.color == "warning"
                                   && r.text == Text.Decimal(daysLeft) + (if daysLeft == 1 then " day left" else " days left")
    ensures r.status == Pending ==> r.color == "secondary" && r.text == Text.Decimal(daysLeft) + " days left"
  {
    if IsSubmitted(submission) then StatusInfo(Submitted, "success", "Submitted")
    else if daysLeft < 0 then StatusInfo(Overdue, "danger", "Overdue")
    else if daysLeft <= 3 then
      StatusInfo(Urgent, "warning", Text.Decimal(daysLeft) + " day" + (if daysLeft != 1 then "s" else "") + " left")
    else StatusInfo(Pending, "secondary", Text.Decimal(daysLeft) + " days left")
  }

  /** `getStatusInfo(assignment)`, on the current user's own submission. */
  function GetStatusInfo(s: Store.State, a: Store.Assignment, daysLeft: int): (r: StatusInfo)
    ensures r.status == Submitted ==>
              exists sub :: sub in s.submissions && sub.assignmentId == a.id
                            && sub.studentId == s.currentUser.id && sub.status == Store.Submitted
    ensures (forall sub :: sub in s.submissions ==> !(sub.assignmentId == a.id && sub.studentId == s.currentUser.id))
              ==> r.status != Submitted
  {
    Classify(Store.GetSubmissionStatus(s, a.id, None), daysLeft)
  }

  /** The "Mark as Submitted" button is shown exactly when the current user
      has no submitted record for the assignment. */
  function OfferMarkSubmitted(s: Store.State, a: Store.Assignment, daysLeft: int): (r: bool)
    ensures r <==> !IsSubmitted(Store.GetSubmissionStatus(s, a.id, None))
  {
    GetStatusInfo(s, a, daysLeft).status != Submitted
  }

  function HasSubmitted(s: Store.State): Store.Assignment -> bool {
    (a: Store.Assignment) => IsSubmitted(Store.GetSubmissionStatus(s, a.id, None))
  }

  /** The progress cards: total, submitted, pending and the percentage
      before rounding. */
  datatype Progress = Progress(total: nat, submitted: nat, pending: int, percentage: real)

  function GetProgress(s: Store.State): (p: Progress)
    ensures p.total == |s.assignments|
    ensures p.submitted <= p.total
    ensures p.pending == p.total - p.submitted && p.pending >= 0
    ensures p.total == 0 ==> p.percentage == 0.0
    ensures 0.0 <= p.percentage <= 100.0
  {
    var total := |s.assignments|;
    var submitted := Count(s.assignments, HasSubmitted(s));
    Progress(total, submitted, total - submitted, Percent.Of(submitted, total))
  }

  /** The view state `confirmSubmission` works on. */
  datatype View = View(selectedAssignment: Option<string>, showSubmissionModal: bool)

  /** `handleSubmit(assignmentId)`: the assignment is selected and the
      confirmation modal opens. */
  function OpenConfirmation(v: View, assignmentId: string): View {
    View(Some(assignmentId), true)
  }

  /** `confirmSubmission`: the action it dispatches and the view after it.
      It is reachable only from the modal, which opens with a selection. */
  function ConfirmSubmission(v: View, currentUser: Store.User): (r: (Store.Action, View))
    requires v.selectedAssignment.Some?
    ensures r.0.SubmitAssignment?
    ensures r.0.assignmentId == v.selectedAssignment.value && r.0.studentId == currentUser.id
    ensures r.1.selectedAssignment.None? && !r.1.showSubmissionModal
  {
    (Store.SubmitAssignment(v.selectedAssignment.value, currentUser.id), View(None, false))
  }

  /** Once confirmed, the selected assignment shows as submitted, whatever
      its due date, and the button is gone. */
  lemma ConfirmMarksSubmitted(s: Store.State, v: View, a: Store.Assignment, daysLeft: int, clock: Store.Clock)
    requires v.selectedAssignment == Some(a.id)
    ensures var s' := Store.Reduce(s, ConfirmSubmission(v, s.currentUser).0, clock);
            && GetStatusInfo(s', a, daysLeft).status == Submitted
            && !OfferMarkSubmitted(s', a, daysLeft)
  {
    Store.SubmitThenLookup(s, a.id, s.currentUser.id, clock);
  }

  /** The whole click path: "Mark as Submitted" on an assignment, then
      confirming, dispatches a submit of that assignment by the current
      user, closes the modal and clears the selection; once reduced, the
      assignment shows as submitted. Whatever the view was before. */
  lemma MarkAsSubmittedFlow(s: Store.State, v: View, a: Store.Assignment, daysLeft: int, clock: Store.Clock)
    ensures var r := ConfirmSubmission(OpenConfirmation(v, a.id), s.currentUser);
            && r.0 == Store.SubmitAssignment(a.id, s.currentUser.id)
            && r.1 == View(None, false)
            && GetStatusInfo(Store.Reduce(s, r.0, clock), a, daysLeft).status == Submitted
  {
    ConfirmMarksSubmitted(s, OpenConfirmation(v, a.id), a, daysLeft, clock);
  }

  /** No submit, by anyone, lowers the current user's submitted count. */
  lemma SubmitNeverLowersProgress(s: Store.State, assignmentId: string, studentId: string, clock: Store.Clock)
    ensures GetProgress(s).submitted
            <= GetProgress(Store.Reduce(s, Store.SubmitAssignment(assignmentId, studentId), clock)).submitted
  {
    var s' := Store.Reduce(s, Store.SubmitAssignment(assignmentId, studentId), clock);
    forall i | 0 <= i < |s.assignments| && HasSubmitted(s)(s.assignments[i])
      ensures HasSubmitted(s')(s.assignments[i])
    {
      Store.SubmitKeepsSubmitted(s, assignmentId, studentId, clock, s.assignments[i].id, s.currentUser.id);
    }
    CountMonotone(s.assignments, HasSubmitted(s), HasSubmitted(s'));
  }

  /** Confirming an assignment that was not yet submitted raises the
      submitted count. */
  lemma ConfirmRaisesProgress(s: Store.State, v: View, k: nat, clock: Store.Clock)
    requires k < |s.assignments| && v.selectedAssignment == Some(s.assignments[k].id)
    requires !HasSubmitted(s)(s.assignments[k])
    ensures GetProgress(s).submitted
            < GetProgress(Store.Reduce(s, ConfirmSubmission(v, s.currentUser).0, clock)).submitted
  {
    var act := ConfirmSubmission(v, s.currentUser).0;
    var s' := Store.Reduce(s, act, clock);
    forall i | 0 <= i < |s.assignments| && HasSubmitted(s)(s.assignments[i])
      ensures HasSubmitted(s')(s.assignments[i])
    {
      Store.SubmitKeepsSubmitted(s, act.assignmentId, act.studentId, clock, s.assignments[i].id, s.currentUser.id);
    }
    Store.SubmitThenLookup(s, act.assignmentId, act.studentId, clock);
    CountStrict(s.assignments, HasSubmitted(s), HasSubmitted(s'), k);
  }
}
