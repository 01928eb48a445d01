/** The application store of `src/context/AppContext.jsx`: three collections
    (users, assignments, submissions), the current user, a loading flag and
    an error, changed only by the reducer `appReducer`, and the small queries
    the provider offers on top of it. */
module Store {
  import opened Seqs
  import Text

  datatype Role = Student | Admin

  datatype User = User(id: string, name: string, email: string, role: Role, avatar: string)

  datatype Assignment = Assignment(
    id: string,
    title: string,
    description: string,
    dueDate: string,
    driveLink: string,
    maxScore: int,
    createdBy: string,
    createdAt: string)

  datatype Status = Pending | Submitted

  datatype Submission = Submission(
    id: string,
    assignmentId: string,
    studentId: string,
    status: Status,
    submittedAt: Option<string>,
    isConfirmed: bool)

  datatype State = State(
    currentUser: User,
    assignments: seq<Assignment>,
    users: seq<User>,
    submissions: seq<Submission>,
    isLoading: bool,
    error: Option<string>)

  /** The actions `appReducer` recognises, by their `type`; any other type is
      `Unrecognised`. */
  datatype Action =
    | SetCurrentUser(user: User)
    | AddAssignment(assignment: Assignment)
    | UpdateAssignment(assignment: Assignment)
    | DeleteAssignment(id: string)
    | SubmitAssignment(assignmentId: string, studentId: string)
    | SetLoading(loading: bool)
    | SetError(error: Option<string>)
    | Unrecognised(tag: string)

  /** What `Date.now()` and `new Date().toISOString()` return at the moment an
      action is reduced. */
  datatype Clock = Clock(millis: nat, iso: string)

  // ---------------------------------------------------------------------
  // Invariants of the store

  predicate AssignmentIdsDistinct(xs: seq<Assignment>) {
    forall i, j :: 0 <= i < j < |xs| ==> xs[i].id != xs[j].id
  }

  predicate SubmissionIdsDistinct(xs: seq<Submission>) {
    forall i, j :: 0 <= i < j < |xs| ==> xs[i].id != xs[j].id
  }

  predicate SamePair(a: Submission, b: Submission) {
    a.assignmentId == b.assignmentId && a.studentId == b.studentId
  }

  /** At most one submission per (assignmentId, studentId) pair. */
  predicate PairsUnique(xs: seq<Submission>) {
    forall i, j :: 0 <= i < j < |xs| ==> !SamePair(xs[i], xs[j])
  }

  predicate Valid(s: State) {
    && AssignmentIdsDistinct(s.assignments)
    && SubmissionIdsDistinct(s.submissions)
    && PairsUnique(s.submissions)
  }

  // ---------------------------------------------------------------------
  // The tests the reducer and the queries pass to `find` and `filter`

  function HasPair(assignmentId: string, studentId: string): Submission -> bool {
    (sub: Submission) => sub.assignmentId == assignmentId && sub.studentId == studentId
  }

  function ForAssignment(assignmentId: string): Submission -> bool {
    (sub: Submission) => sub.assignmentId == assignmentId
  }

  function HasUserId(id: string): User -> bool {
    (u: User) => u.id == id
  }

  function IdIsNot(id: string): Assignment -> bool {
    (a: Assignment) => a.id != id
  }

  function CreatedBy(userId: string): Assignment -> bool {
    (a: Assignment) => a.createdBy == userId
  }

  // ---------------------------------------------------------------------
  // The reducer

  /** `UPDATE_ASSIGNMENT`: every assignment whose id is the payload's becomes
      the payload; the others, and the length and order, stay. */
  function ReplaceById(xs: seq<Assignment>, p: Assignment): (r: seq<Assignment>)
    ensures |r| == |xs|
    ensures forall k :: 0 <= k < |xs| && xs[k].id == p.id ==> r[k] == p
    ensures forall k :: 0 <= k < |xs| && xs[k].id != p.id ==> r[k] == xs[k]
    decreases |xs|
  {
    if xs == [] then []
    else [if xs[0].id == p.id then p else xs[0]] + ReplaceById(xs[1..], p)
  }

  /** `DELETE_ASSIGNMENT`: exactly the assignments with another id remain. */
  function RemoveById(xs: seq<Assignment>, id: string): (r: seq<Assignment>)
    ensures |r| <= |xs|
    ensures forall a :: a in r ==> a in xs && a.id != id
    ensures forall a :: a in xs && a.id != id ==> a in r
  {
    Filter(xs, IdIsNot(id))
  }

  /** The record `SUBMIT_ASSIGNMENT` makes of a submission. */
  function MarkSubmitted(sub: Submission, now: string): Submission {
    sub.(status := Submitted, submittedAt := Some(now), isConfirmed := true)
  }

  /** `sub_${Date.now()}` */
  function NewSubmissionId(clock: Clock): string {
    "sub_" + Text.Decimal(clock.millis)
  }

  predicate SubmissionIdFresh(xs: seq<Submission>, id: string) {
    forall k :: 0 <= k < |xs| ==> xs[k].id != id
  }

  /** Every submission carrying `id` is marked submitted at `now`; the others
      stay as they are. */
  function RefreshById(xs: seq<Submission>, id: string, now: string): (r: seq<Submission>)
    ensures |r| == |xs|
    ensures forall k :: 0 <= k < |xs| && xs[k].id == id ==> r[k] == MarkSubmitted(xs[k], now)
    ensures forall k :: 0 <= k < |xs| && xs[k].id != id ==> r[k] == xs[k]
    decreases |xs|
  {
    if xs == [] then []
    else [if xs[0].id == id then MarkSubmitted(xs[0], now) else xs[0]] + RefreshById(xs[1..], id, now)
  }

  /** `SUBMIT_ASSIGNMENT`: the upsert keyed on (assignmentId, studentId). */
  function Upsert(subs: seq<Submission>, assignmentId: string, studentId: string, clock: Clock): (r: seq<Submission>)
    // a record for the pair exists: same length, every record sharing the
    // first match's id is marked submitted now, the others are untouched
    ensures match FindIndex(subs, HasPair(assignmentId, studentId))
            case Some(i) =>
              && |r| == |subs|
              && r[i] == MarkSubmitted(subs[i], clock.iso)
              && (forall k :: 0 <= k < |subs| && subs[k].id == subs[i].id ==> r[k] == MarkSubmitted(subs[k], clock.iso))
              && (forall k :: 0 <= k < |subs| && subs[k].id != subs[i].id ==> r[k] == subs[k])
            case None =>
              r == subs + [Submission(NewSubmissionId(clock), assignmentId, studentId, Submitted, Some(clock.iso), true)]
    // no record disappears, changes its id or its pair, or goes back to pending
    ensures |subs| <= |r| <= |subs| + 1
    ensures forall k :: 0 <= k < |subs| ==> r[k].id == subs[k].id && SamePair(r[k], subs[k])
    ensures forall k :: 0 <= k < |subs| && subs[k].status == Submitted ==> r[k].status == Submitted
    // the invariants
    ensures PairsUnique(subs) ==> PairsUnique(r)
    ensures SubmissionIdsDistinct(subs)
            && (FindIndex(subs, HasPair(assignmentId, studentId)).None? ==> SubmissionIdFresh(subs, NewSubmissionId(clock)))
            ==> SubmissionIdsDistinct(r)
  {
    match FindIndex(subs, HasPair(assignmentId, studentId))
    case Some(i) => RefreshById(subs, subs[i].id, clock.iso)
    case None =>
      subs + [Submission(NewSubmissionId(clock), assignmentId, studentId, Submitted, Some(clock.iso), true)]
  }

  /** `appReducer`: a new state for every action; the input is never changed. */
  function Reduce(s: State, act: Action, clock: Clock): (r: State)
    ensures r.users == s.users
    ensures r.currentUser == (if act.SetCurrentUser? then act.user else s.currentUser)
    ensures r.isLoading == (if act.SetLoading? then act.loading else s.isLoading)
    ensures r.error == (if act.SetError? then act.error else s.error)
    ensures act.AddAssignment? ==> r.assignments == s.assignments + [act.assignment]
    ensures act.UpdateAssignment? ==> r.assignments == ReplaceById(s.assignments, act.assignment)
    ensures act.DeleteAssignment? ==> r.assignments == RemoveById(s.assignments, act.id)
    ensures !(act.AddAssignment? || act.UpdateAssignment? || act.DeleteAssignment?) ==> r.assignments == s.assignments
    ensures act.SubmitAssignment? ==> r.submissions == Upsert(s.submissions, act.assignmentId, act.studentId, clock)
    ensures !act.SubmitAssignment? ==> r.submissions == s.submissions
    ensures act.Unrecognised? ==> r == s
    ensures PairsUnique(s.submissions) ==> PairsUnique(r.submissions)
  {
    match act
    case SetCurrentUser(u) => s.(currentUser := u)
    case AddAssignment(a) => s.(assignments := s.assignments + [a])
    case UpdateAssignment(a) => s.(assignments := ReplaceById(s.assignments, a))
    case DeleteAssignment(id) => s.(assignments := RemoveById(s.assignments, id))
    case SubmitAssignment(a, st) => s.(submissions := Upsert(s.submissions, a, st, clock))
    case SetLoading(b) => s.(isLoading := b)
    case SetError(e) => s.(error := e)
    case Unrecognised(_) => s
  }

  // ---------------------------------------------------------------------
  // The provider's helpers

  /** `switchUser`: the first user with that id becomes the current user; an
      unknown id changes nothing. */
  function SwitchUser(s: State, id: string): (r: State)
    ensures (exists u :: u in s.users && u.id == id) ==>
              && r == s.(currentUser := r.currentUser)
              && r.currentUser.id == id
              && exists i :: 0 <= i < |s.users| && s.users[i] == r.currentUser
                             && forall j :: 0 <= j < i ==> s.users[j].id != id
    ensures (forall u :: u in s.users ==> u.id != id) ==> r == s
    ensures s.currentUser in s.users ==> r.currentUser in r.users
  {
    match FindIndex(s.users, HasUserId(id))
    case Some(i) => Reduce(s, SetCurrentUser(s.users[i]), Clock(0, ""))
    case None => s
  }

  /** `getAssignmentsForCurrentUser`: an admin sees exactly the assignments
      they created, anyone else sees them all. */
  function AssignmentsForCurrentUser(s: State): (r: seq<Assignment>)
    ensures s.currentUser.role == Admin ==>
              forall a :: a in r <==> a in s.assignments && a.createdBy == s.currentUser.id
    ensures s.currentUser.role != Admin ==> r == s.assignments
  {
    if s.currentUser.role == Admin then Filter(s.assignments, CreatedBy(s.currentUser.id))
    else s.assignments
  }

  /** `getSubmissionStatus(assignmentId, studentId = currentUser.id)`: the
      first submission for the pair, or nothing. */
  function GetSubmissionStatus(s: State, assignmentId: string, studentId: Option<string>): (r: Option<Submission>)
    ensures var st := studentId.GetOr(s.currentUser.id);
            && (r.Some? ==> r.value in s.submissions && r.value.assignmentId == assignmentId && r.value.studentId == st)
            && (r.None? <==> forall sub :: sub in s.submissions ==> !(sub.assignmentId == assignmentId && sub.studentId == st))
            && (r.Some? ==> exists i :: 0 <= i < |s.submissions| && s.submissions[i] == r.value
                              && forall j :: 0 <= j < i ==> !(s.submissions[j].assignmentId == assignmentId && s.submissions[j].studentId == st))
  {
    Find(s.submissions, HasPair(assignmentId, studentId.GetOr(s.currentUser.id)))
  }

  /** `getStudentSubmissions(assignmentId)`: all submissions for it. */
  function GetStudentSubmissions(s: State, assignmentId: string): (r: seq<Submission>)
    ensures forall sub :: sub in r ==> sub in s.submissions && sub.assignmentId == assignmentId
    ensures forall sub :: sub in s.submissions && sub.assignmentId == assignmentId ==> sub in r
  {
    Filter(s.submissions, ForAssignment(assignmentId))
  }

  function StatusIs(status: Status): Submission -> bool {
    (sub: Submission) => sub.status == status
  }

  // ---------------------------------------------------------------------
  // Properties of the reducer and the queries

  /** `DELETE_ASSIGNMENT` keeps the survivors in their original relative
      order: deleting from a concatenation deletes from each part. */
  lemma RemoveByIdConcat(a: seq<Assignment>, b: seq<Assignment>, id: string)
    ensures RemoveById(a + b, id) == RemoveById(a, id) + RemoveById(b, id)
  {
    FilterConcat(a, b, IdIsNot(id));
  }

  /** The assignments an admin sees keep their stored order: the view of a
      concatenation is the concatenation of the views. */
  lemma AssignmentsForCurrentUserConcat(s: State, a: seq<Assignment>, b: seq<Assignment>)
    ensures AssignmentsForCurrentUser(s.(assignments := a + b))
         == AssignmentsForCurrentUser(s.(assignments := a)) + AssignmentsForCurrentUser(s.(assignments := b))
  {
    FilterConcat(a, b, CreatedBy(s.currentUser.id));
  }

  /** The submissions listed for an assignment keep their stored order. */
  lemma GetStudentSubmissionsConcat(s: State, a: seq<Submission>, b: seq<Submission>, assignmentId: string)
    ensures GetStudentSubmissions(s.(submissions := a + b), assignmentId)
         == GetStudentSubmissions(s.(submissions := a), assignmentId)
          + GetStudentSubmissions(s.(submissions := b), assignmentId)
  {
    FilterConcat(a, b, ForAssignment(assignmentId));
  }

  /** Deleting an id no assignment has changes nothing. */
  lemma RemoveAbsentId(xs: seq<Assignment>, id: string)
    requires forall k :: 0 <= k < |xs| ==> xs[k].id != id
    ensures RemoveById(xs, id) == xs
  {
    FilterKeepsAll(xs, IdIsNot(id));
  }

  /** Filtering assignments keeps their ids distinct. */
  lemma {:induction false} FilterKeepsIdsDistinct(xs: seq<Assignment>, p: Assignment -> bool)
    requires AssignmentIdsDistinct(xs)
    ensures AssignmentIdsDistinct(Filter(xs, p))
    decreases |xs|
  {
    if xs != [] {
      var tail := xs[1..];
      assert AssignmentIdsDistinct(tail) by {
        forall i, j | 0 <= i < j < |tail| ensures tail[i].id != tail[j].id {
          assert tail[i] == xs[i + 1] && tail[j] == xs[j + 1];
        }
      }
      FilterKeepsIdsDistinct(tail, p);
      var rest := Filter(tail, p);
      if p(xs[0]) {
        assert Filter(xs, p) == [xs[0]] + rest;
        forall y | y in rest ensures y.id != xs[0].id {
          var k :| 0 <= k < |tail| && tail[k] == y;
          assert xs[k + 1] == y;
        }
      }
    }
  }

  /** Actions whose supplied id, or whose generated id when a record is
      appended, is new to the store. */
  predicate FreshFor(s: State, act: Action, clock: Clock) {
    && (act.AddAssignment? ==> forall k :: 0 <= k < |s.assignments| ==> s.assignments[k].id != act.assignment.id)
    && (act.SubmitAssignment? && FindIndex(s.submissions, HasPair(act.assignmentId, act.studentId)).None? ==>
          SubmissionIdFresh(s.submissions, NewSubmissionId(clock)))
  }

  /** Every action keeps ids unique and at most one submission per pair,
      provided the ids it introduces are new. */
  lemma ReducePreservesValid(s: State, act: Action, clock: Clock)
    requires Valid(s) && FreshFor(s, act, clock)
    ensures Valid(Reduce(s, act, clock))
  {
    match act
    case DeleteAssignment(id) => FilterKeepsIdsDistinct(s.assignments, IdIsNot(id));
    case UpdateAssignment(a) =>
      var r := ReplaceById(s.assignments, a);
      assert forall k :: 0 <= k < |r| ==> r[k].id == s.assignments[k].id;
    case _ =>
  }

  /** After `SUBMIT_ASSIGNMENT` the lookup for the pair finds a submitted,
      confirmed record stamped with the current time. */
  lemma SubmitThenLookup(s: State, assignmentId: string, studentId: string, clock: Clock)
    ensures var r := GetSubmissionStatus(Reduce(s, SubmitAssignment(assignmentId, studentId), clock), assignmentId, Some(studentId));
            && r.Some?
            && r.value.status == Submitted
            && r.value.isConfirmed
            && r.value.submittedAt == Some(clock.iso)
  {
    var subs := s.submissions;
    var p := HasPair(assignmentId, studentId);
    var r := Upsert(subs, assignmentId, studentId, clock);
    match FindIndex(subs, p)
    case Some(i) =>
      FindIndexAgrees(subs, p, r, p, i);
    case None =>
      assert p(r[|subs|]);
      assert forall j :: 0 <= j < |subs| ==> r[j] == subs[j];
      FindIndexAgrees(r, p, r, p, |subs|);
  }

  /** A submit for a pair with no record appends exactly one record, and
      the lookup then finds it. */
  lemma SubmitNewPair(s: State, assignmentId: string, studentId: string, clock: Clock)
    requires GetSubmissionStatus(s, assignmentId, Some(studentId)).None?
    ensures var s' := Reduce(s, SubmitAssignment(assignmentId, studentId), clock);
            var made := Submission(NewSubmissionId(clock), assignmentId, studentId, Submitted, Some(clock.iso), true);
            && s'.submissions == s.submissions + [made]
            && GetSubmissionStatus(s', assignmentId, Some(studentId)) == Some(made)
  {
    var subs := s.submissions;
    var p := HasPair(assignmentId, studentId);
    var r := Upsert(subs, assignmentId, studentId, clock);
    assert p(r[|subs|]);
    assert forall j :: 0 <= j < |subs| ==> r[j] == subs[j];
    FindIndexAgrees(r, p, r, p, |subs|);
  }

  /** With at most one record per pair, a submit leaves exactly one record
      for its pair, and that record is submitted. */
  lemma SubmitLeavesOneRecord(s: State, assignmentId: string, studentId: string, clock: Clock)
    requires PairsUnique(s.submissions)
    ensures var s' := Reduce(s, SubmitAssignment(assignmentId, studentId), clock);
            && PairsUnique(s'.submissions)
            && Count(s'.submissions, HasPair(assignmentId, studentId)) == 1
            && GetSubmissionStatus(s', assignmentId, Some(studentId)).Some?
            && GetSubmissionStatus(s', assignmentId, Some(studentId)).value.status == Submitted
  {
    var s' := Reduce(s, SubmitAssignment(assignmentId, studentId), clock);
    var xs := s'.submissions;
    var p := HasPair(assignmentId, studentId);
    SubmitThenLookup(s, assignmentId, studentId, clock);
    var k := FindIndex(xs, p).value;
    assert forall j :: 0 <= j < |xs| && p(xs[j]) ==> j == k;
    CountOne(xs, p, k);
  }

  /** Submitting the same pair twice leaves exactly one submitted record. */
  lemma SubmitTwice(s: State, assignmentId: string, studentId: string, c1: Clock, c2: Clock)
    requires PairsUnique(s.submissions)
    ensures var s2 := Reduce(Reduce(s, SubmitAssignment(assignmentId, studentId), c1), SubmitAssignment(assignmentId, studentId), c2);
            && Count(s2.submissions, HasPair(assignmentId, studentId)) == 1
            && GetSubmissionStatus(s2, assignmentId, Some(studentId)).Some?
            && GetSubmissionStatus(s2, assignmentId, Some(studentId)).value.status == Submitted
  {
    var s1 := Reduce(s, SubmitAssignment(assignmentId, studentId), c1);
    SubmitLeavesOneRecord(s, assignmentId, studentId, c1);
    SubmitLeavesOneRecord(s1, assignmentId, studentId, c2);
  }

  /** A submit never turns any pair's lookup from submitted back to pending. */
  lemma SubmitKeepsSubmitted(s: State, assignmentId: string, studentId: string, clock: Clock, a: string, st: string)
    requires var r := GetSubmissionStatus(s, a, Some(st)); r.Some? && r.value.status == Submitted
    ensures var r := GetSubmissionStatus(Reduce(s, SubmitAssignment(assignmentId, studentId), clock), a, Some(st));
            r.Some? && r.value.status == Submitted
  {
    var subs := s.submissions;
    var q := HasPair(a, st);
    var r := Upsert(subs, assignmentId, studentId, clock);
    var i := FindIndex(subs, q).value;
    FindIndexAgrees(subs, q, r, q, i);
  }

  /** An admin's view grows by the new assignment, at the end, exactly when
      they created it. */
  lemma AdminViewAfterAdd(s: State, a: Assignment, clock: Clock)
    requires s.currentUser.role == Admin
    ensures AssignmentsForCurrentUser(Reduce(s, AddAssignment(a), clock))
            == AssignmentsForCurrentUser(s) + (if a.createdBy == s.currentUser.id then [a] else [])
  {
    FilterConcat(s.assignments, [a], CreatedBy(s.currentUser.id));
  }

  // ---------------------------------------------------------------------
  // The seed data

  const InitialAssignments: seq<Assignment> := [
    Assignment("assign_001", "React Fundamentals Project",
      "Build a complete React application demonstrating component lifecycle, state management, and hooks.",
      "2024-12-15", "https://drive.google.com/drive/folders/example1", 100, "prof_001", "2024-11-01"),
    Assignment("assign_002", "Database Design Assignment",
      "Design and implement a normalized database schema for an e-commerce platform.",
      "2024-12-20", "https://drive.google.com/drive/folders/example2", 80, "prof_001", "2024-11-02"),
    Assignment("assign_003", "API Integration Challenge",
      "Create a web application that integrates with multiple REST APIs and handles error scenarios.",
      "2024-12-25", "https://drive.google.com/drive/folders/example3", 90, "prof_002", "2024-11-03")
  ]

  const InitialUsers: seq<User> := [
    User("student_001", "Alex Johnson", "alex.johnson@university.edu", Student, "AJ"),
    User("student_002", "Sarah Chen", "sarah.chen@university.edu", Student, "SC"),
    User("student_003", "Michael Rodriguez", "michael.rodriguez@university.edu", Student, "MR"),
    User("prof_001", "Dr. Emily Watson", "emily.watson@university.edu", Admin, "EW"),
    User("prof_002", "Prof. David Kim", "david.kim@university.edu", Admin, "DK")
  ]

  const InitialSubmissions: seq<Submission> := [
    Submission("sub_001", "assign_001", "student_001", Submitted, Some("2024-11-10T14:30:00Z"), true),
    Submission("sub_002", "assign_001", "student_002", Pending, None, false),
    Submission("sub_003", "assign_002", "student_001", Pending, None, false)
  ]

  const InitialState: State := State(InitialUsers[0], InitialAssignments, InitialUsers, InitialSubmissions, false, None)

  lemma SeedIsValid()
    ensures Valid(InitialState)
  {
  }

  lemma SeedSwitchToProfessor()
    ensures SwitchUser(InitialState, "prof_001").currentUser == InitialUsers[3]
  {
    var p := HasUserId("prof_001");
    assert p(InitialUsers[3]);
    assert !p(InitialUsers[0]) && !p(InitialUsers[1]) && !p(InitialUsers[2]);
    FindIndexAgrees(InitialUsers, p, InitialUsers, p, 3);
  }

  lemma SeedProfessorAuthored()
    ensures Filter(InitialAssignments, CreatedBy("prof_001")) == [InitialAssignments[0], InitialAssignments[1]]
  {
    var mine := [InitialAssignments[0], InitialAssignments[1]];
    var p := CreatedBy("prof_001");
    assert InitialAssignments == mine + [InitialAssignments[2]];
    FilterConcat(mine, [InitialAssignments[2]], p);
    FilterKeepsAll(mine, p);
    assert !p(InitialAssignments[2]);
  }

  /** Switching to `prof_001` shows exactly the two assignments they wrote. */
  lemma SeedProfessorView()
    ensures AssignmentsForCurrentUser(SwitchUser(InitialState, "prof_001"))
            == [InitialAssignments[0], InitialAssignments[1]]
  {
    SeedSwitchToProfessor();
    SeedProfessorAuthored();
    var s := SwitchUser(InitialState, "prof_001");
    assert s.assignments == InitialAssignments;
    assert s.currentUser.role == Admin && s.currentUser.id == "prof_001";
  }

  /** `assign_001` has two records on the seed data, one of them submitted. */
  lemma SeedAssignment001Submissions()
    ensures |GetStudentSubmissions(InitialState, "assign_001")| == 2
    ensures Count(GetStudentSubmissions(InitialState, "assign_001"), StatusIs(Submitted)) == 1
  {
  }

  /** (`assign_002`, `student_002`) has no record until it is submitted. */
  lemma SeedSubmitScenario(clock: Clock)
    ensures GetSubmissionStatus(InitialState, "assign_002", Some("student_002")).None?
    ensures GetSubmissionStatus(Reduce(InitialState, SubmitAssignment("assign_002", "student_002"), clock),
                                "assign_002", Some("student_002"))
            == Some(Submission(NewSubmissionId(clock), "assign_002", "student_002", Submitted, Some(clock.iso), true))
  {
    var p := HasPair("assign_002", "student_002");
    assert !p(InitialSubmissions[0]) && !p(InitialSubmissions[1]) && !p(InitialSubmissions[2]);
    SubmitNewPair(InitialState, "assign_002", "student_002", clock);
  }
}
