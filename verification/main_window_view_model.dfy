/** `MainWindowViewModel`: the roster controller. It holds three pending
    inputs bound to the entry form and the ordered list of students, and its
    one command, `AddStudent`, validates the pending names, appends a new
    entry and clears the form. The desktop copy and the Shared copy differ
    only in the students they seed. */
module MainWindowViewModels {
  import opened Wrappers
  import Text
  import opened StudentViewModels

  datatype MainWindowViewModel = MainWindowViewModel(
    newStudentFirstName: Option<string>,
    newStudentLastName: Option<string>,
    newStudentGrade: int,
    students: seq<StudentViewModel>)

  function Entry(first: string, last: string, grade: int): StudentViewModel {
    StudentViewModel(Student(Some(first), Some(last), grade))
  }

  /** The `FullInfo` line of every student, in list order. */
  function Listing(s: seq<StudentViewModel>): (r: seq<string>)
    ensures |r| == |s|
    ensures forall i :: 0 <= i < |s| ==> r[i] == FullInfo(s[i])
  {
    if |s| == 0 then [] else [FullInfo(s[0])] + Listing(s[1..])
  }

  /** The literal text of the other two sample lines, assembled from their
      parts. */
  lemma BobJohnsonText()
    ensures "Bob" + " " + "Johnson" + GradeLabel + "85" == "Bob Johnson - Grade: 85"
  {
  }

  lemma CharlieBrownText()
    ensures "Charlie" + " " + "Brown" + GradeLabel + "95" == "Charlie Brown - Grade: 95"
  {
  }

  /** The display line of each sample student. */
  lemma AliceFullInfo()
    ensures FullInfo(Entry("Alice", "Smith", 90)) == "Alice Smith - Grade: 90"
  {
    AliceSmithExample();
  }

  lemma BobFullInfo()
    ensures FullInfo(Entry("Bob", "Johnson", 85)) == "Bob Johnson - Grade: 85"
  {
    FullInfoOfNames("Bob", "Johnson", 85);
    Text.TwoDigitDecimal(85);
    assert Text.IntToDecimal(85) == "85";
    BobJohnsonText();
  }

  lemma CharlieFullInfo()
    ensures FullInfo(Entry("Charlie", "Brown", 95)) == "Charlie Brown - Grade: 95"
  {
    FullInfoOfNames("Charlie", "Brown", 95);
    Text.TwoDigitDecimal(95);
    assert Text.IntToDecimal(95) == "95";
    CharlieBrownText();
  }

  /** The display lines of the sample students, in seeding order. */
  lemma SampleListing()
    ensures Listing([Entry("Alice", "Smith", 90), Entry("Bob", "Johnson", 85), Entry("Charlie", "Brown", 95)])
         == ["Alice Smith - Grade: 90", "Bob Johnson - Grade: 85", "Charlie Brown - Grade: 95"]
    ensures Listing([Entry("Alice", "Smith", 90), Entry("Bob", "Johnson", 85)])
         == ["Alice Smith - Grade: 90", "Bob Johnson - Grade: 85"]
  {
    AliceFullInfo();
    BobFullInfo();
    CharlieFullInfo();
    var l3 := Listing([Entry("Alice", "Smith", 90), Entry("Bob", "Johnson", 85), Entry("Charlie", "Brown", 95)]);
    assert l3[0] == "Alice Smith - Grade: 90";
    assert l3[1] == "Bob Johnson - Grade: 85";
    assert l3[2] == "Charlie Brown - Grade: 95";
    var l2 := Listing([Entry("Alice", "Smith", 90), Entry("Bob", "Johnson", 85)]);
    assert l2[0] == "Alice Smith - Grade: 90";
    assert l2[1] == "Bob Johnson - Grade: 85";
  }

  /** The desktop constructor: an empty form and three sample students. */
  function NewDesktopWindow(): (w: MainWindowViewModel)
    ensures w.newStudentFirstName == None && w.newStudentLastName == None && w.newStudentGrade == 0
    ensures Listing(w.students)
         == ["Alice Smith - Grade: 90", "Bob Johnson - Grade: 85", "Charlie Brown - Grade: 95"]
  {
    SampleListing();
    MainWindowViewModel(None, None, 0,
      [Entry("Alice", "Smith", 90), Entry("Bob", "Johnson", 85), Entry("Charlie", "Brown", 95)])
  }

  /** The Shared constructor: an empty form and two sample students. */
  function NewSharedWindow(): (w: MainWindowViewModel)
    ensures w.newStudentFirstName == None && w.newStudentLastName == None && w.newStudentGrade == 0
    ensures Listing(w.students) == ["Alice Smith - Grade: 90", "Bob Johnson - Grade: 85"]
  {
    SampleListing();
    MainWindowViewModel(None, None, 0, [Entry("Alice", "Smith", 90), Entry("Bob", "Johnson", 85)])
  }

  /** The form's bound properties; each write touches its own field only. */
  function SetNewStudentFirstName(w: MainWindowViewModel, v: Option<string>): (r: MainWindowViewModel)
    ensures r.newStudentFirstName == v
    ensures r.(newStudentFirstName := w.newStudentFirstName) == w
  {
    w.(newStudentFirstName := v)
  }

  function SetNewStudentLastName(w: MainWindowViewModel, v: Option<string>): (r: MainWindowViewModel)
    ensures r.newStudentLastName == v
    ensures r.(newStudentLastName := w.newStudentLastName) == w
  {
    w.(newStudentLastName := v)
  }

  function SetNewStudentGrade(w: MainWindowViewModel, v: int): (r: MainWindowViewModel)
    ensures r.newStudentGrade == v
    ensures r.(newStudentGrade := w.newStudentGrade) == w
  {
    w.(newStudentGrade := v)
  }

  /** The guard of `AddStudent`: both pending names are present and not blank.
      The grade plays no part. */
  predicate CanAdd(w: MainWindowViewModel) {
    !Text.IsNullOrWhiteSpace(w.newStudentFirstName) && !Text.IsNullOrWhiteSpace(w.newStudentLastName)
  }

  /** The guard restated with trimming: both names are present
      and each is non-empty once trimmed. */
  lemma CanAddIffTrimmedNames(w: MainWindowViewModel)
    ensures CanAdd(w) <==>
      (w.newStudentFirstName.Some? && Text.Trim(w.newStudentFirstName.value) != ""
       && w.newStudentLastName.Some? && Text.Trim(w.newStudentLastName.value) != "")
  {
    Text.NullOrTrimsToEmpty(w.newStudentFirstName);
    Text.NullOrTrimsToEmpty(w.newStudentLastName);
  }

  /** The record `AddStudent` builds from the pending inputs. */
  function PendingStudent(w: MainWindowViewModel): StudentViewModel {
    StudentViewModel(Student(w.newStudentFirstName, w.newStudentLastName, w.newStudentGrade))
  }

  /** `AddStudent`. On a blank name nothing at all changes. Otherwise the
      list grows by one at its end, the earlier entries keep their place, the
      new last entry carries the pre-call inputs, and the form is reset to
      "", "" and 0. */
  function AddStudent(w: MainWindowViewModel): (r: MainWindowViewModel)
    ensures !CanAdd(w) ==> r == w
    ensures CanAdd(w) ==>
      && |r.students| == |w.students| + 1
      && r.students[..|w.students|] == w.students
      && FirstName(r.students[|w.students|]) == w.newStudentFirstName
      && LastName(r.students[|w.students|]) == w.newStudentLastName
      && Grade(r.students[|w.students|]) == w.newStudentGrade
      && r.newStudentFirstName == Some("")
      && r.newStudentLastName == Some("")
      && r.newStudentGrade == 0
  {
    if CanAdd(w) then
      MainWindowViewModel(Some(""), Some(""), 0, w.students + [PendingStudent(w)])
    else
      w
  }

  /** An add is accepted exactly when the list grows; otherwise its length
      stays the same. It never shrinks. */
  lemma AddStudentGrowsIffAccepted(w: MainWindowViewModel)
    ensures |AddStudent(w).students| == |w.students| + 1 <==> CanAdd(w)
    ensures !CanAdd(w) ==> |AddStudent(w).students| == |w.students|
    ensures w.students <= AddStudent(w).students
  {
  }

  /** The grade is never validated: any value, negative ones included, is
      accepted when the names are, and lands unchanged in the new record. */
  lemma GradeIsNotValidated(w: MainWindowViewModel, g: int)
    requires CanAdd(w)
    ensures CanAdd(w.(newStudentGrade := g))
    ensures Grade(Last(AddStudent(w.(newStudentGrade := g)).students)) == g
  {
  }

  function Last<T>(s: seq<T>): T
    requires |s| > 0
  {
    s[|s| - 1]
  }

  /** Right after a successful add the form is blank, so an immediate second
      `AddStudent` is a no-op. */
  lemma SecondAddIsNoOp(w: MainWindowViewModel)
    requires CanAdd(w)
    ensures !CanAdd(AddStudent(w))
    ensures AddStudent(AddStudent(w)) == AddStudent(w)
  {
    assert Text.AllWhiteSpace("");
  }

  /** One form submission: type the three values, then press "add". */
  datatype Submission = Submission(first: Option<string>, last: Option<string>, grade: int)

  function Submit(w: MainWindowViewModel, s: Submission): MainWindowViewModel {
    AddStudent(SetNewStudentGrade(SetNewStudentLastName(SetNewStudentFirstName(w, s.first), s.last), s.grade))
  }

  /** A submission is accepted when the form it fills in passes `CanAdd`. */
  predicate Valid(s: Submission) {
    CanAdd(MainWindowViewModel(s.first, s.last, s.grade, []))
  }

  /** Reference definition of the students a run of submissions adds: the
      valid submissions, in the order they were made. */
  function Accepted(subs: seq<Submission>): seq<StudentViewModel> {
    if |subs| == 0 then []
    else
      var s := subs[|subs| - 1];
      Accepted(subs[..|subs| - 1]) + (if Valid(s) then [StudentViewModel(Student(s.first, s.last, s.grade))] else [])
  }

  /** Two valid submissions append their two records in submission order. */
  lemma TwoAddsAppendInOrder(w: MainWindowViewModel, s1: Submission, s2: Submission)
    requires Valid(s1) && Valid(s2)
    ensures Submit(Submit(w, s1), s2).students
         == w.students + [StudentViewModel(Student(s1.first, s1.last, s1.grade)),
                          StudentViewModel(Student(s2.first, s2.last, s2.grade))]
  {
  }

  /** The form a run of submissions leaves behind: untouched by an empty
      run, cleared after a valid last submission, and still holding an
      invalid last submission's values. */
  function FormAfter(w: MainWindowViewModel, subs: seq<Submission>): (Option<string>, Option<string>, int) {
    if |subs| == 0 then (w.newStudentFirstName, w.newStudentLastName, w.newStudentGrade)
    else
      var s := subs[|subs| - 1];
      if Valid(s) then (Some(""), Some(""), 0) else (s.first, s.last, s.grade)
  }

  /** Drives the controller through a run of submissions. The list ends as
      the starting list followed by exactly the valid submissions, in order:
      entries are never dropped, reordered or rewritten. */
  method RunSession(w: MainWindowViewModel, subs: seq<Submission>) returns (final: MainWindowViewModel)
    ensures final.students == w.students + Accepted(subs)
    ensures (final.newStudentFirstName, final.newStudentLastName, final.newStudentGrade) == FormAfter(w, subs)
  {
    final := w;
    var i := 0;
    while i < |subs|
      invariant 0 <= i <= |subs|
      invariant final.students == w.students + Accepted(subs[..i])
      invariant (final.newStudentFirstName, final.newStudentLastName, final.newStudentGrade) == FormAfter(w, subs[..i])
    {
      final := Submit(final, subs[i]);
      assert subs[..i + 1][..i] == subs[..i];
      i := i + 1;
    }
    assert subs[..i] == subs;
  }

  /** The end-to-end run on the Shared seed: adding Charlie Brown with 95
      gives three students, Charlie last, and a cleared form. */
  lemma SharedScenario()
    ensures var w := Submit(NewSharedWindow(), Submission(Some("Charlie"), Some("Brown"), 95));
      && Listing(w.students)
         == ["Alice Smith - Grade: 90", "Bob Johnson - Grade: 85", "Charlie Brown - Grade: 95"]
      && w.newStudentFirstName == Some("") && w.newStudentLastName == Some("") && w.newStudentGrade == 0
  {
    var w := Submit(NewSharedWindow(), Submission(Some("Charlie"), Some("Brown"), 95));
    assert !Text.AllWhiteSpace("Charlie") by { assert !Text.IsWhiteSpace("Charlie"[0]); }
    assert !Text.AllWhiteSpace("Brown") by { assert !Text.IsWhiteSpace("Brown"[0]); }
    assert w.students == NewSharedWindow().students + [Entry("Charlie", "Brown", 95)];
    SampleListing();
  }
}
