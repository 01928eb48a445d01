/** The logic of `src/components/AdminDashboard.jsx` over the store: the
    list of students, the per-assignment and overall submission counts, and
    the per-student submitted mark. */
module AdminDashboard {
  import opened Seqs
  import Store
  import StudentDashboard
  import Percent

  function IsStudent(): Store.User -> bool {
    (u: Store.User) => u.role == Store.Student
  }

  /** `students`: exactly the users whose role is student, in order. */
  function Students(users: seq<Store.User>): (r: seq<Store.User>)
    ensures |r| <= |users|
    ensures forall u :: u in r ==> u in users && u.role == Store.Student
    ensures forall u :: u in users && u.role == Store.Student ==> u in r
  {
    Filter(users, IsStudent())
  }

  /** The students are listed in the order of the users. */
  lemma StudentsConcat(a: seq<Store.User>, b: seq<Store.User>)
    ensures Students(a + b) == Students(a) + Students(b)
  {
    FilterConcat(a, b, IsStudent());
  }

  /** Submitted records for one assignment. */
  function SubmittedFor(assignmentId: string): Store.Submission -> bool {
    (sub: Store.Submission) => sub.assignmentId == assignmentId && sub.status == Store.Submitted
  }

  /** `getStudentSubmissions(assignmentId).filter(sub => sub.status === 'submitted').length` */
  function SubmittedCount(s: Store.State, assignmentId: string): (n: nat)
    ensures n == Count(s.submissions, SubmittedFor(assignmentId))
  {
    FilterFilter(s.submissions, Store.ForAssignment(assignmentId), Store.StatusIs(Store.Submitted), SubmittedFor(assignmentId));
    Count(Store.GetStudentSubmissions(s, assignmentId), Store.StatusIs(Store.Submitted))
  }

  /** `getAssignmentStats`'s record; the percentage before rounding. */
  datatype AssignmentStats = AssignmentStats(submitted: nat, total: nat, percentage: real)

  /** `getAssignmentStats(assignmentId)`: how many records for the
      assignment are submitted, out of how many students. */
  function GetAssignmentStats(s: Store.State, assignmentId: string): (r: AssignmentStats)
    ensures r.submitted == Count(s.submissions, SubmittedFor(assignmentId))
    ensures r.total == |Students(s.users)|
    ensures r.total == 0 ==> r.percentage == 0.0
    ensures r.percentage >= 0.0
  {
    var submittedCount := SubmittedCount(s, assignmentId);
    var totalStudents := |Students(s.users)|;
    AssignmentStats(submittedCount, totalStudents, Percent.Of(submittedCount, totalStudents))
  }

  /** The submitted counts of the assignments in `xs`, added up. */
  function SubmittedSum(s: Store.State, xs: seq<Store.Assignment>): nat
    decreases |xs|
  {
    if xs == [] then 0
    else SubmittedSum(s, xs[..|xs| - 1]) + SubmittedCount(s, xs[|xs| - 1].id)
  }

  /** `getOverallStats`'s record; the percentage before rounding. */
  datatype OverallStats = OverallStats(
    totalAssignments: nat,
    totalSubmissions: nat,
    totalPossibleSubmissions: nat,
    overallPercentage: real)

  /** `getOverallStats`: the admin's assignments, the submitted records for
      them, added up assignment by assignment, and the possible total. */
  method GetOverallStats(s: Store.State) returns (r: OverallStats)
    ensures r.totalAssignments == |Store.AssignmentsForCurrentUser(s)|
    ensures r.totalPossibleSubmissions == |Store.AssignmentsForCurrentUser(s)| * |Students(s.users)|
    ensures r.totalSubmissions == SubmittedSum(s, Store.AssignmentsForCurrentUser(s))
    ensures r.totalPossibleSubmissions == 0 ==> r.overallPercentage == 0.0
    ensures r.overallPercentage >= 0.0
  {
    var myAssignments := Store.AssignmentsForCurrentUser(s);
    var studentCount := |Students(s.users)|;
    var totalAssignments := |myAssignments|;
    var totalPossibleSubmissions := totalAssignments * studentCount;
    var totalSubmissions := SumSubmitted(s, myAssignments);
    r := OverallStats(totalAssignments, totalSubmissions, totalPossibleSubmissions,
                      Percent.Of(totalSubmissions, totalPossibleSubmissions));
  }

  /** The `forEach` of `getOverallStats`: the submitted counts of `xs`,
      accumulated one assignment at a time. */
  method SumSubmitted(s: Store.State, xs: seq<Store.Assignment>) returns (total: nat)
    ensures total == SubmittedSum(s, xs)
  {
    total := 0;
    var i := 0;
    while i < |xs|
      invariant 0 <= i <= |xs|
      invariant total == SubmittedSum(s, xs[..i])
    {
      total := total + SubmittedCount(s, xs[i].id);
      assert xs[..i + 1][..i] == xs[..i];
      i := i + 1;
    }
    assert xs[..i] == xs;
  }

  function IdsOf(xs: seq<Store.Assignment>): set<string> {
    set k | 0 <= k < |xs| :: xs[k].id
  }

  /** Submitted records for any of the assignments whose ids are `ids`. */
  function SubmittedForAny(ids: set<string>): Store.Submission -> bool {
    (sub: Store.Submission) => sub.assignmentId in ids && sub.status == Store.Submitted
  }

  /** Over assignments with distinct ids the sum counts every submitted
      record of those assignments exactly once. */
  lemma {:induction false} SubmittedSumCountsRecords(s: Store.State, xs: seq<Store.Assignment>)
    requires Store.AssignmentIdsDistinct(xs)
    ensures SubmittedSum(s, xs) == Count(s.submissions, SubmittedForAny(IdsOf(xs)))
    ensures SubmittedSum(s, xs) <= |s.submissions|
    decreases |xs|
  {
    if xs == [] {
      CountNone(s.submissions, SubmittedForAny(IdsOf(xs)));
    } else {
      var ys := xs[..|xs| - 1];
      var x := xs[|xs| - 1];
      assert Store.AssignmentIdsDistinct(ys);
      SubmittedSumCountsRecords(s, ys);
      assert x.id !in IdsOf(ys);
      assert IdsOf(xs) == IdsOf(ys) + {x.id} by {
        forall id | id in IdsOf(xs) ensures id in IdsOf(ys) + {x.id} {
          var k :| 0 <= k < |xs| && xs[k].id == id;
          if k < |xs| - 1 { assert ys[k] == xs[k]; }
        }
        forall id | id in IdsOf(ys) ensures id in IdsOf(xs) {
          var k :| 0 <= k < |ys| && ys[k].id == id;
          assert xs[k] == ys[k];
        }
      }
      CountSplit(s.submissions, SubmittedForAny(IdsOf(ys)), SubmittedFor(x.id), SubmittedForAny(IdsOf(xs)));
    }
  }

  /** On a valid store the overall total counts each submitted record of
      the admin's assignments once, so it never exceeds the records. */
  lemma TotalSubmissionsCountsRecords(s: Store.State)
    requires Store.Valid(s)
    ensures var mine := Store.AssignmentsForCurrentUser(s);
            SubmittedSum(s, mine) == Count(s.submissions, SubmittedForAny(IdsOf(mine)))
            && SubmittedSum(s, mine) <= |s.submissions|
  {
    var mine := Store.AssignmentsForCurrentUser(s);
    if s.currentUser.role == Store.Admin {
      Store.FilterKeepsIdsDistinct(s.assignments, Store.CreatedBy(s.currentUser.id));
    }
    SubmittedSumCountsRecords(s, mine);
  }

  function StudentIdIs(id: string): Store.Submission -> bool {
    (sub: Store.Submission) => sub.studentId == id
  }

  /** The per-student mark on an assignment's card: the first record of the
      student among the assignment's records is submitted. */
  function IsShownSubmitted(s: Store.State, assignmentId: string, student: Store.User): (r: bool)
    ensures r ==> exists sub :: sub in s.submissions && sub.assignmentId == assignmentId
                                && sub.studentId == student.id && sub.status == Store.Submitted
    ensures (forall sub :: sub in s.submissions ==> !(sub.assignmentId == assignmentId && sub.studentId == student.id))
              ==> !r
  {
    var found := Find(Store.GetStudentSubmissions(s, assignmentId), StudentIdIs(student.id));
    found.Some? && found.value.status == Store.Submitted
  }

  /** The admin's mark for a student agrees with what that student's own
      dashboard looks up. */
  lemma AdminAndStudentViewsAgree(s: Store.State, assignmentId: string, student: Store.User)
    ensures IsShownSubmitted(s, assignmentId, student)
            == StudentDashboard.IsSubmitted(Store.GetSubmissionStatus(s, assignmentId, Some(student.id)))
  {
    FindFilter(s.submissions, Store.ForAssignment(assignmentId), StudentIdIs(student.id),
               Store.HasPair(assignmentId, student.id));
  }

  /** With at most one record per pair, a student is shown as submitted
      exactly when some record of theirs for the assignment is submitted. */
  lemma ShownSubmittedIff(s: Store.State, assignmentId: string, student: Store.User)
    requires Store.PairsUnique(s.submissions)
    ensures IsShownSubmitted(s, assignmentId, student)
            <==> exists sub :: sub in s.submissions && sub.assignmentId == assignmentId
                               && sub.studentId == student.id && sub.status == Store.Submitted
  {
    AdminAndStudentViewsAgree(s, assignmentId, student);
    var subs := s.submissions;
    var p := Store.HasPair(assignmentId, student.id);
    if sub :| sub in subs && sub.assignmentId == assignmentId && sub.studentId == student.id && sub.status == Store.Submitted {
      var k :| 0 <= k < |subs| && subs[k] == sub;
      assert FindIndex(subs, p).value == k;
    }
  }
}
