/** `StudentViewModel`: an observable wrapper around one mutable `Student`
    record, with read-through getters, change-notifying setters and two
    derived display strings. The desktop copy and the Shared copy of the
    class are identical and are modelled once. */
module StudentViewModels {
  import opened Wrappers
  import Text

  /** The `Student` model record: two nullable names and an unconstrained grade. */
  datatype Student = Student(firstName: Option<string>, lastName: Option<string>, grade: int)

  /** The view-model's state is the record it wraps; the record is held as
      given, so wrapping alters nothing. */
  datatype StudentViewModel = StudentViewModel(student: Student)

  /** The property names a setter reports through `PropertyChanged`. */
  datatype PropertyName = FirstNameProperty | LastNameProperty | GradeProperty

  /** The outcome of one property assignment: the entry afterwards and the
      change notifications raised, in order. */
  datatype Assignment = Assignment(entry: StudentViewModel, raised: seq<PropertyName>)

  /** The getters read through to the wrapped record; nothing is cached. */
  function FirstName(e: StudentViewModel): Option<string> {
    e.student.firstName
  }

  function LastName(e: StudentViewModel): Option<string> {
    e.student.lastName
  }

  function Grade(e: StudentViewModel): int {
    e.student.grade
  }

  /** `set FirstName`: `SetProperty` compares old and new value; an equal
      value changes nothing and raises nothing, a different one is written
      into the record and reported once. */
  function SetFirstName(e: StudentViewModel, v: Option<string>): (a: Assignment)
    ensures FirstName(a.entry) == v
    ensures LastName(a.entry) == LastName(e) && Grade(a.entry) == Grade(e)
    ensures v == FirstName(e) ==> a.entry == e && a.raised == []
    ensures v != FirstName(e) ==> a.raised == [FirstNameProperty]
  {
    if v == e.student.firstName then Assignment(e, [])
    else Assignment(StudentViewModel(e.student.(firstName := v)), [FirstNameProperty])
  }

  /** `set LastName`, with the same compare-then-write behaviour. */
  function SetLastName(e: StudentViewModel, v: Option<string>): (a: Assignment)
    ensures LastName(a.entry) == v
    ensures FirstName(a.entry) == FirstName(e) && Grade(a.entry) == Grade(e)
    ensures v == LastName(e) ==> a.entry == e && a.raised == []
    ensures v != LastName(e) ==> a.raised == [LastNameProperty]
  {
    if v == e.student.lastName then Assignment(e, [])
    else Assignment(StudentViewModel(e.student.(lastName := v)), [LastNameProperty])
  }

  /** `set Grade`, with the same compare-then-write behaviour. */
  function SetGrade(e: StudentViewModel, v: int): (a: Assignment)
    ensures Grade(a.entry) == v
    ensures FirstName(a.entry) == FirstName(e) && LastName(a.entry) == LastName(e)
    ensures v == Grade(e) ==> a.entry == e && a.raised == []
    ensures v != Grade(e) ==> a.raised == [GradeProperty]
  {
    if v == e.student.grade then Assignment(e, [])
    else Assignment(StudentViewModel(e.student.(grade := v)), [GradeProperty])
  }

  /** `DisplayName`, the interpolation `{FirstName} {LastName}`: the rendered
      first name, one space, the rendered last name. */
  function DisplayName(e: StudentViewModel): (r: string)
    ensures |r| == |Text.Render(FirstName(e))| + 1 + |Text.Render(LastName(e))|
    ensures r[..|Text.Render(FirstName(e))|] == Text.Render(FirstName(e))
    ensures r[|Text.Render(FirstName(e))|] == ' '
    ensures r[|Text.Render(FirstName(e))| + 1..] == Text.Render(LastName(e))
  {
    Text.Render(FirstName(e)) + " " + Text.Render(LastName(e))
  }

  /** The literal text `FullInfo` places between the names and the grade. */
  const GradeLabel: string := " - Grade: "

  /** `FullInfo`, the interpolation `{FirstName} {LastName} - Grade: {Grade}`. */
  function FullInfo(e: StudentViewModel): (r: string)
    ensures r == DisplayName(e) + GradeLabel + Text.IntToDecimal(Grade(e))
  {
    Text.Render(FirstName(e)) + " " + Text.Render(LastName(e)) + GradeLabel + Text.IntToDecimal(Grade(e))
  }

  /** `FullInfo` begins with `DisplayName`, then the grade label, then the
      grade's decimal text, which reads back as the grade. */
  lemma FullInfoExtendsDisplayName(e: StudentViewModel)
    ensures |DisplayName(e)| + |GradeLabel| < |FullInfo(e)|
    ensures FullInfo(e)[..|DisplayName(e)|] == DisplayName(e)
    ensures FullInfo(e)[|DisplayName(e)|..|DisplayName(e)| + |GradeLabel|] == GradeLabel
    ensures FullInfo(e)[|DisplayName(e)| + |GradeLabel|..] == Text.IntToDecimal(Grade(e))
    ensures Text.ParseInt(FullInfo(e)[|DisplayName(e)| + |GradeLabel|..]) == Some(Grade(e))
  {
    var d := DisplayName(e);
    var g := Text.IntToDecimal(Grade(e));
    assert FullInfo(e) == d + GradeLabel + g;
    assert FullInfo(e)[|d| + |GradeLabel|..] == g;
    Text.DecimalRoundTrip(Grade(e));
  }

  /** Each getter returns the value its setter was just given (get-after-set). */
  lemma GetAfterSet(e: StudentViewModel, first: Option<string>, last: Option<string>, grade: int)
    ensures FirstName(SetFirstName(e, first).entry) == first
    ensures LastName(SetLastName(e, last).entry) == last
    ensures Grade(SetGrade(e, grade).entry) == grade
  {
  }

  /** Assigning a property its current value leaves the record as it was and
      raises no notification (set-after-get). */
  lemma SetCurrentValueIsNoOp(e: StudentViewModel)
    ensures SetFirstName(e, FirstName(e)) == Assignment(e, [])
    ensures SetLastName(e, LastName(e)) == Assignment(e, [])
    ensures SetGrade(e, Grade(e)) == Assignment(e, [])
  {
  }

  /** Setters on different fields commute: the record reached does not
      depend on the order of the assignments. */
  lemma SettersCommute(e: StudentViewModel, first: Option<string>, last: Option<string>, grade: int)
    ensures SetLastName(SetFirstName(e, first).entry, last).entry
         == SetFirstName(SetLastName(e, last).entry, first).entry
    ensures SetGrade(SetFirstName(e, first).entry, grade).entry
         == SetFirstName(SetGrade(e, grade).entry, first).entry
    ensures SetGrade(SetLastName(e, last).entry, grade).entry
         == SetLastName(SetGrade(e, grade).entry, last).entry
  {
  }

  /** The derived strings are recomputed from the current fields: after a
      `FirstName` assignment they show the new name and nothing stale. */
  lemma DerivedStringsFollowFirstName(e: StudentViewModel, v: Option<string>)
    ensures DisplayName(SetFirstName(e, v).entry) == Text.Render(v) + " " + Text.Render(LastName(e))
    ensures FullInfo(SetFirstName(e, v).entry)
         == Text.Render(v) + " " + Text.Render(LastName(e)) + GradeLabel + Text.IntToDecimal(Grade(e))
  {
  }

  /** The grade only affects the text after the label of `FullInfo`. */
  lemma GradeDoesNotAffectDisplayName(e: StudentViewModel, v: int)
    ensures DisplayName(SetGrade(e, v).entry) == DisplayName(e)
    ensures FullInfo(SetGrade(e, v).entry)[..|DisplayName(e)|] == DisplayName(e)
  {
    FullInfoExtendsDisplayName(SetGrade(e, v).entry);
  }

  /** A null name renders like an empty one. */
  lemma NullNameRendersEmpty(e: StudentViewModel)
    requires FirstName(e) == None
    ensures DisplayName(e) == " " + Text.Render(LastName(e))
    ensures DisplayName(e) == DisplayName(SetFirstName(e, Some("")).entry)
  {
  }

  /** The display line of a student whose names are both present. */
  lemma FullInfoOfNames(first: string, last: string, grade: int)
    ensures FullInfo(StudentViewModel(Student(Some(first), Some(last), grade)))
         == first + " " + last + GradeLabel + Text.IntToDecimal(grade)
  {
  }

  /** The literal text of the worked example, assembled from its parts. */
  lemma AliceSmithText()
    ensures "Alice" + " " + "Smith" == "Alice Smith"
    ensures "Alice" + " " + "Smith" + GradeLabel + "90" == "Alice Smith - Grade: 90"
  {
  }

  /** Worked example: Alice Smith with grade 90. */
  lemma AliceSmithExample()
    ensures DisplayName(StudentViewModel(Student(Some("Alice"), Some("Smith"), 90))) == "Alice Smith"
    ensures FullInfo(StudentViewModel(Student(Some("Alice"), Some("Smith"), 90))) == "Alice Smith - Grade: 90"
  {
    FullInfoOfNames("Alice", "Smith", 90);
    Text.TwoDigitDecimal(90);
    assert Text.IntToDecimal(90) == "90";
    AliceSmithText();
  }
}
