# LearnAvalonia student roster — a Dafny model

The repository is an Avalonia MVVM tutorial: a student roster editor. Almost
all of it is UI glue. Three pieces of sequential logic are modelled here as
immutable datatypes and pure functions, and their properties are proved:

- **`MainWindowViewModel`**, the roster controller (`main_window_view_model.dfy`,
  module `MainWindowViewModels`). Its state is three pending form inputs (first
  name, last name, grade) and the ordered list of students. `AddStudent` accepts
  the inputs only if neither name is null, empty or whitespace. When it accepts,
  it appends a new entry and resets the form to `""`, `""`, `0`. Otherwise it
  does nothing. The desktop copy seeds three students and the Shared copy seeds
  two. Apart from the seeds the two copies are identical, so one `AddStudent`
  models both.
- **`StudentViewModel`**, one roster entry (`student_view_model.dfy`, module
  `StudentViewModels`). It has read-through getters and compare-then-write
  setters over the wrapped `Student` record. It also has two derived strings:
  `DisplayName` (`{First} {Last}`) and `FullInfo` (`{First} {Last} - Grade: {Grade}`).
  The desktop and Shared copies are identical.
- **`ViewLocator`** (`view_locator.dfy`). It turns a view-model type name into a
  view type name by an ordinal, left-to-right "replace every `ViewModel` with
  `View`". Then it either builds that view or returns a `TextBlock` saying
  `View Not Found: <name>`. `Match` accepts exactly the objects that are a
  `ViewModelBase`.

Supporting modules: `Wrappers` (`Option`, used for C# `null`) and `Text`
(`string.IsNullOrWhiteSpace`, `Trim`, interpolation of a nullable string, and
decimal rendering of an `int` with a parse-back round trip).

Modelling choices:

- `string?` is `Option<string>`. An interpolated null renders as `""`.
- `Char.IsWhiteSpace` is the fixed set of characters .NET classifies as white
  space.
- Reflection is replaced by a parameter: the set of view type names that
  `Type.GetType` would resolve.
- The runtime type of an object is its full name plus the full names of its base
  classes. `data is ViewModelBase` checks whether `ViewModelBase` is among them.
- `SetProperty` is modelled by its observable result. An equal value changes
  nothing and raises nothing. A different value is written and reported once in
  an event log (`Assignment.raised`).

Notes on the code:

- The convention replaces *every* occurrence of `ViewModel`, including those in
  the namespace. It is not a suffix rewrite.
- After a successful add, the pending names are the empty string, not null.

Where the comments and the code disagree, the model follows the code:

- The comment at `ViewLocator.cs:16` says `...ViewModels.MainWindowViewModel`
  becomes `...Views.MainView`. The call on line 17 gives
  `...Views.MainWindowView`. `ViewLocator.MainWindowViewModelMapsToMainWindowView`
  proves this.

## Model

| member | source | states |
|---|---|---|
| Text.AllWhiteSpace | AvaloniaMvvmTutorial/ViewModels/MainWindowViewModel.cs:36-37 | the blank-name test holds exactly when every character of the name is white space, so also for the empty name |
| Text.BlankIffTrimsToEmpty | AvaloniaMvvmTutorial/AvaloniaMvvmTutorial.Shared/ViewModels/MainWindowViewModel.cs:33 | a non-null name is rejected by `IsNullOrWhiteSpace` iff trimming it leaves the empty string |
| Text.IsNullOrWhiteSpace | AvaloniaMvvmTutorial/ViewModels/MainWindowViewModel.cs:36-37 | a name is rejected iff it is null or every character of it is white space |
| Text.NullOrTrimsToEmpty | AvaloniaMvvmTutorial/AvaloniaMvvmTutorial.Shared/ViewModels/MainWindowViewModel.cs:33 | a possibly-null name is rejected iff it is null or trimming it leaves the empty string |
| Text.IntToDecimal | AvaloniaMvvmTutorial/AvaloniaMvvmTutorial.Shared/ViewModels/StudentViewModel.cs:29 | the grade text has the canonical shape: an optional '-' exactly when the grade is negative, then digits with no leading zero, and it is "0" exactly for grade 0 |
| Text.DecimalRoundTrip | AvaloniaMvvmTutorial/ViewModels/StudentViewModel.cs:30 | reading the rendered grade back gives the same integer, for every int including negatives |
| Text.DecimalUnique | AvaloniaMvvmTutorial/ViewModels/StudentViewModel.cs:30 | any canonical text that reads back as a grade is exactly the text printed for it, so the printed grade is pinned down completely |
| StudentViewModels.SetFirstName | AvaloniaMvvmTutorial/ViewModels/StudentViewModel.cs:10-14 | after the assignment the getter returns the new value, last name and grade are untouched, and one FirstName notification is raised iff the value differed |
| StudentViewModels.SetLastName | AvaloniaMvvmTutorial/ViewModels/StudentViewModel.cs:16-20 | the same for LastName: only that field changes, one notification iff the value differed |
| StudentViewModels.SetGrade | AvaloniaMvvmTutorial/ViewModels/StudentViewModel.cs:22-26 | the same for Grade: only that field changes, one notification iff the value differed |
| StudentViewModels.GetAfterSet | AvaloniaMvvmTutorial/AvaloniaMvvmTutorial.Shared/ViewModels/StudentViewModel.cs:10-26 | each getter reads back exactly what its setter wrote into the wrapped record |
| StudentViewModels.SetCurrentValueIsNoOp | AvaloniaMvvmTutorial/AvaloniaMvvmTutorial.Shared/ViewModels/StudentViewModel.cs:13-25 | assigning any property its current value leaves the record as it was and raises nothing |
| StudentViewModels.SettersCommute | AvaloniaMvvmTutorial/ViewModels/StudentViewModel.cs:13-25 | each setter writes only its own field, so assignments to different fields can be done in either order |
| StudentViewModels.DisplayName | AvaloniaMvvmTutorial/ViewModels/StudentViewModel.cs:29 | the display name is the rendered first name, exactly one space, then the rendered last name, with lengths adding up |
| StudentViewModels.FullInfo | AvaloniaMvvmTutorial/ViewModels/StudentViewModel.cs:29-30 | the full line is DisplayName, then " - Grade: ", then the grade's decimal text |
| StudentViewModels.FullInfoExtendsDisplayName | AvaloniaMvvmTutorial/ViewModels/StudentViewModel.cs:29-30 | FullInfo starts with DisplayName, then " - Grade: ", and the rest is exactly the grade's canonical decimal text, which reads back as the grade |
| StudentViewModels.DerivedStringsFollowFirstName | AvaloniaMvvmTutorial/AvaloniaMvvmTutorial.Shared/ViewModels/StudentViewModel.cs:13-29 | reading either derived string after a FirstName assignment shows the new name |
| StudentViewModels.GradeDoesNotAffectDisplayName | AvaloniaMvvmTutorial/AvaloniaMvvmTutorial.Shared/ViewModels/StudentViewModel.cs:28-29 | changing the grade leaves DisplayName and the FullInfo text before the label unchanged |
| StudentViewModels.NullNameRendersEmpty | AvaloniaMvvmTutorial/AvaloniaMvvmTutorial.Shared/ViewModels/StudentViewModel.cs:28 | a null first name displays exactly like an empty one |
| StudentViewModels.AliceSmithExample | AvaloniaMvvmTutorial/AvaloniaMvvmTutorial.Shared/ViewModels/StudentViewModel.cs:28-29 | Alice / Smith / 90 displays as "Alice Smith" and "Alice Smith - Grade: 90" |
| Text.TwoDigitDecimal | AvaloniaMvvmTutorial/ViewModels/StudentViewModel.cs:30 | a grade from 10 to 99 prints as its tens digit followed by its units digit |
| MainWindowViewModels.SampleListing | AvaloniaMvvmTutorial/ViewModels/MainWindowViewModel.cs:29-31 | the seeded students display as "Alice Smith - Grade: 90", "Bob Johnson - Grade: 85", "Charlie Brown - Grade: 95", in that order |
| MainWindowViewModels.NewDesktopWindow | AvaloniaMvvmTutorial/ViewModels/MainWindowViewModel.cs:24-32 | the desktop controller starts with a null, null, 0 form and lists Alice Smith 90, Bob Johnson 85, Charlie Brown 95 in that order |
| MainWindowViewModels.NewSharedWindow | AvaloniaMvvmTutorial/AvaloniaMvvmTutorial.Shared/ViewModels/MainWindowViewModel.cs:24-29 | the Shared controller starts with a null, null, 0 form and lists Alice Smith 90, Bob Johnson 85 in that order |
| MainWindowViewModels.SetNewStudentFirstName | AvaloniaMvvmTutorial/ViewModels/MainWindowViewModel.cs:11-12 | writing the bound first-name input changes that input and nothing else |
| MainWindowViewModels.SetNewStudentLastName | AvaloniaMvvmTutorial/ViewModels/MainWindowViewModel.cs:14-15 | writing the bound last-name input changes that input and nothing else |
| MainWindowViewModels.SetNewStudentGrade | AvaloniaMvvmTutorial/ViewModels/MainWindowViewModel.cs:17-18 | writing the bound grade input changes that input and nothing else |
| MainWindowViewModels.CanAddIffTrimmedNames | AvaloniaMvvmTutorial/ViewModels/MainWindowViewModel.cs:36-37 | the condition tested at these lines holds iff both names are non-null and non-empty after trimming; the grade plays no part |
| MainWindowViewModels.AddStudent | AvaloniaMvvmTutorial/ViewModels/MainWindowViewModel.cs:34-53 | a blank name changes no state at all; otherwise the old list is a prefix of the new one, one entry carrying the pre-call inputs is added at the end, and the form becomes "", "", 0 |
| MainWindowViewModels.AddStudentGrowsIffAccepted | AvaloniaMvvmTutorial/AvaloniaMvvmTutorial.Shared/ViewModels/MainWindowViewModel.cs:31-41 | the list grows by one iff the names pass validation, otherwise it keeps its length, and it never shrinks |
| MainWindowViewModels.GradeIsNotValidated | AvaloniaMvvmTutorial/ViewModels/MainWindowViewModel.cs:36-43 | acceptance does not depend on the grade, and any grade, negative included, is stored unchanged |
| MainWindowViewModels.SecondAddIsNoOp | AvaloniaMvvmTutorial/ViewModels/MainWindowViewModel.cs:36-50 | after a successful add the form fails validation, so an immediate second add changes nothing |
| MainWindowViewModels.TwoAddsAppendInOrder | AvaloniaMvvmTutorial/AvaloniaMvvmTutorial.Shared/ViewModels/MainWindowViewModel.cs:35-36 | two valid submissions append their two records after the existing list, in submission order |
| MainWindowViewModels.RunSession | AvaloniaMvvmTutorial/AvaloniaMvvmTutorial.Shared/ViewModels/MainWindowViewModel.cs:31-41 | after any run of submissions the list is the starting list followed by exactly the valid submissions in order; the form is reset to "", "", 0 when the last submission was valid and keeps the last submission's values when it was not |
| MainWindowViewModels.SharedScenario | AvaloniaMvvmTutorial/AvaloniaMvvmTutorial.Shared/ViewModels/MainWindowViewModel.cs:24-41 | adding Charlie Brown 95 to the Shared seed lists three students, ending with "Charlie Brown - Grade: 95", and clears the form |
| ViewLocator.ReplaceOrdinal | AvaloniaMvvmTutorial/AvaloniaMvvmTutorial.Shared/ViewLocator.cs:17 | an ordinal replacement whose replacement is no longer than the pattern never lengthens the name |
| ViewLocator.ContainsIffReplaced | AvaloniaMvvmTutorial/AvaloniaMvvmTutorial.Shared/ViewLocator.cs:17 | the name contains the pattern anywhere iff the replacement rewrites at least one occurrence |
| ViewLocator.ReplaceAtFirstOccurrence | AvaloniaMvvmTutorial/AvaloniaMvvmTutorial.Shared/ViewLocator.cs:17 | text before the leftmost occurrence is copied, that occurrence is rewritten, and scanning resumes after it, so matches never overlap |
| ViewLocator.ReplaceWithoutOccurrence | AvaloniaMvvmTutorial/AvaloniaMvvmTutorial.Shared/ViewLocator.cs:17 | a name without the pattern maps to itself |
| ViewLocator.ReplaceByScan | AvaloniaMvvmTutorial/AvaloniaMvvmTutorial.Shared/ViewLocator.cs:17 | the IndexOf-driven scan (copy up to the next match, emit the replacement, resume after the match) computes the same name as the character-by-character replacement, for every name and pattern |
| ViewLocator.IndexOfFindsFirst | AvaloniaMvvmTutorial/AvaloniaMvvmTutorial.Shared/ViewLocator.cs:17 | the search reports the leftmost occurrence at or after its start position, and reports none only when no occurrence exists there |
| ViewLocator.ConventionRewritesNamespaceAndClass | AvaloniaMvvmTutorial/AvaloniaMvvmTutorial.Shared/ViewLocator.cs:17 | for any namespace prefix and class stem that do not themselves contain "ViewModel", `<ns>ViewModels.<Stem>ViewModel` maps to `<ns>Views.<Stem>View`: both the namespace and the class suffix are rewritten |
| ViewLocator.ReplaceCopiesUnmatched | AvaloniaMvvmTutorial/AvaloniaMvvmTutorial.Shared/ViewLocator.cs:17 | text without an occurrence is copied unchanged up to a following occurrence, because no match of "ViewModel" can straddle the join |
| ViewLocator.ViewName | AvaloniaMvvmTutorial/AvaloniaMvvmTutorial.Shared/ViewLocator.cs:17 | the derived view name is 5 characters shorter than the type's full name for every rewritten "ViewModel" (the law is proved by induction in `ViewLocator.ViewNameLength`) |
| ViewLocator.ViewNameUnchangedIffNoViewModel | AvaloniaMvvmTutorial/AvaloniaMvvmTutorial.Shared/ViewLocator.cs:15-17 | the view name equals the type name iff the type name has no "ViewModel" in it |
| ViewLocator.Build | AvaloniaMvvmTutorial/AvaloniaMvvmTutorial.Shared/ViewLocator.cs:10-30 | null gives null; a known view name gives that view; an unknown one gives a TextBlock reading "View Not Found: " and the name |
| ViewLocator.BuildOutcome | AvaloniaMvvmTutorial/AvaloniaMvvmTutorial.Shared/ViewLocator.cs:18-29 | a view is built iff the derived name is known, and the placeholder text strips back to exactly the derived name |
| ViewLocator.NonNullAlwaysBuilds | AvaloniaMvvmTutorial/AvaloniaMvvmTutorial.Shared/ViewLocator.cs:10-30 | every non-null object, and so every object the locator claims, gets a control from Build, never null |
| ViewLocator.MatchClaimsViewModelsOnly | AvaloniaMvvmTutorial/AvaloniaMvvmTutorial.Shared/ViewLocator.cs:35 | every type deriving from ViewModelBase is claimed and every type that is neither ViewModelBase nor derived from it is not; for example StudentViewModel and ViewModelBase are claimed, null and Student are not |
| ViewLocator.MatchInheritedBySubclasses | AvaloniaMvvmTutorial/AvaloniaMvvmTutorial.Shared/ViewLocator.cs:35 | `is ViewModelBase` is inherited: a class derived from a claimed class is claimed too |
| ViewLocator.MainWindowViewModelMapsToMainWindowView | AvaloniaMvvmTutorial/AvaloniaMvvmTutorial.Shared/ViewLocator.cs:15-17 | the main view-model maps to "...Shared.Views.MainWindowView" with two rewrites, not to the "...Views.MainView" the comment names |

## Left out

- Change notification as library behaviour is left out. This covers `PropertyChanging`, the `[ObservableProperty]` notifications on the form inputs, and the `ObservableCollection` collection-changed events. The model keeps only the resulting state, plus the `PropertyChanged` log of the entry setters.
- `DisplayName` and `FullInfo` are never reported as changed. A setter raises `PropertyChanged` only for its own property, so a view bound to the derived strings is not told to refresh. The model follows the source here: `raised` holds only the assigned property.
- `RelayCommand` / `ICommand` wiring is left out: `AddStudent` is a direct call and nothing models `CanExecute`.
- Object identity and aliasing are left out. A `StudentViewModel` holds a reference to its `Student`, so two wrappers over one record would see each other's writes. The model uses values. Edits made through list bindings after an entry is inserted are modelled on the single entry, not as a list operation.
- `ViewLocator.Build`: the reflection is abstracted. Type lookup rules such as assemblies, nested and generic type names are not modelled. Failures of `Activator.CreateInstance` or of the cast to `Control` are not modelled either. A null `FullName` cannot happen for a runtime object and is not modelled.
- `Text.IntToDecimal`: culture-specific number formatting is not modelled; the invariant culture's `-` sign is used. There is no arithmetic on the grade, so the 32-bit width of `int` does not matter and is not modelled.
- `Text.AllWhiteSpace`: the white-space set is fixed to the one .NET uses today; later Unicode versions are not tracked.
- Lengths count characters differently. A Dafny `string` is a sequence of Unicode scalar values, while a .NET `string` counts UTF-16 code units. The length statements of `StudentViewModels.DisplayName` and `ViewLocator.ViewNameLength` count scalar values, so for names outside the Basic Multilingual Plane they differ from .NET's `Length`.
- ViewLocator.ReplaceOrdinal: the generic contract states only that the length does not grow. The exact shrink of 5 per occurrence is proved for "ViewModel" to "View" in `ViewLocator.ViewNameLength`.
- `App.axaml.cs` is left out: it does XAML loading, lifetime selection, window construction and removal of the data-validation plugin.
- `TempXplat/TempXplatApp/TempXplatApp/ViewModels/MainViewModel.cs` is left out: it is one constant greeting with no behaviour.
- `Models/Student.cs` and `ViewModelBase.cs` are not part of this model. The `Student` record is inferred from its uses: two nullable names and an `int` grade.
