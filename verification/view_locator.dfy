/** `ViewLocator`: the data template that turns a view-model object into its
    view by the naming convention "replace every `ViewModel` in the type's
    full name with `View`". Reflection is replaced by a set of known view
    type names: `Type.GetType` succeeds exactly for the names in that set. */
module ViewLocator {
  import opened Wrappers

  /** The runtime type of an object: its full name and the full names of its
      base classes, nearest first. */
  datatype RuntimeType = RuntimeType(fullName: string, baseTypes: seq<string>)

  /** What `Build` can hand back: an instance of a resolved view type, or a
      `TextBlock` carrying a message. */
  datatype Control = ViewInstance(viewType: string) | TextBlock(text: string)

  const ViewModelWord: string := "ViewModel"
  const ViewWord: string := "View"
  const NotFoundPrefix: string := "View Not Found: "
  const ViewModelBaseName: string := "AvaloniaMvvmTutorial.Shared.ViewModels.ViewModelBase"

  /** `s` begins with `pat`, compared character by character (ordinal). */
  predicate StartsWith(s: string, pat: string) {
    |pat| <= |s| && forall k :: 0 <= k < |pat| ==> s[k] == pat[k]
  }

  /** `pat` occurs in `s` starting at position `i`. */
  predicate OccursAt(s: string, pat: string, i: nat) {
    i <= |s| && StartsWith(s[i..], pat)
  }

  predicate Contains(s: string, pat: string) {
    exists i: nat | i <= |s| :: OccursAt(s, pat, i)
  }

  /** Number of occurrences an ordinal left-to-right replacement rewrites. */
  function ReplacedCount(s: string, pat: string): nat
    requires |pat| > 0
  {
    if |s| < |pat| then 0
    else if StartsWith(s, pat) then 1 + ReplacedCount(s[|pat|..], pat)
    else ReplacedCount(s[1..], pat)
  }

  /** `string.Replace(pat, rep, StringComparison.Ordinal)`: scanning left to
      right, every occurrence of `pat` not overlapping an earlier rewritten
      one becomes `rep`. A replacement no longer than the pattern never
      lengthens the text, and one of the same length keeps it. */
  function ReplaceOrdinal(s: string, pat: string, rep: string): (r: string)
    requires |pat| > 0
    ensures |rep| <= |pat| ==> |r| <= |s|
    ensures |rep| == |pat| ==> |r| == |s|
    decreases |s|
  {
    if |s| < |pat| then s
    else if StartsWith(s, pat) then rep + ReplaceOrdinal(s[|pat|..], pat, rep)
    else [s[0]] + ReplaceOrdinal(s[1..], pat, rep)
  }

  /** Occurrences in a suffix are the occurrences of the whole string, shifted. */
  lemma OccursInSuffix(s: string, pat: string, k: nat)
    requires k <= |s|
    ensures forall m: nat :: OccursAt(s[k..], pat, m) <==> OccursAt(s, pat, k + m)
  {
    forall m: nat
      ensures OccursAt(s[k..], pat, m) <==> OccursAt(s, pat, k + m)
    {
      if k + m <= |s| {
        assert s[k..][m..] == s[k + m..];
      }
    }
  }

  /** Every occurrence of `pat` is seen: a string contains `pat` exactly
      when the replacement rewrites at least one occurrence. */
  lemma {:induction false} ContainsIffReplaced(s: string, pat: string)
    requires |pat| > 0
    ensures Contains(s, pat) <==> ReplacedCount(s, pat) > 0
    decreases |s|
  {
    if |s| < |pat| {
      forall i: nat | i <= |s|
        ensures !OccursAt(s, pat, i)
      {
      }
    } else if StartsWith(s, pat) {
      assert s[0..] == s;
      assert OccursAt(s, pat, 0);
    } else {
      ContainsIffReplaced(s[1..], pat);
      OccursInSuffix(s, pat, 1);
      assert s[0..] == s;
      if Contains(s, pat) {
        var i: nat :| i <= |s| && OccursAt(s, pat, i);
        assert OccursAt(s[1..], pat, i - 1);
      }
      if Contains(s[1..], pat) {
        var i: nat :| i <= |s[1..]| && OccursAt(s[1..], pat, i);
        assert OccursAt(s, pat, 1 + i);
      }
    }
  }

  /** At a position where `pat` does not start, the replacement of the rest
      copies one character. */
  lemma CopyStep(s: string, pat: string, rep: string, k: nat)
    requires |pat| > 0 && k + |pat| <= |s| && !OccursAt(s, pat, k)
    ensures ReplaceOrdinal(s[k..], pat, rep) == [s[k]] + ReplaceOrdinal(s[k + 1..], pat, rep)
  {
    assert s[k..][1..] == s[k + 1..];
  }

  /** At a position where `pat` starts, the replacement of the rest emits
      `rep` and resumes after the occurrence. */
  lemma RewriteStep(s: string, pat: string, rep: string, k: nat)
    requires |pat| > 0 && OccursAt(s, pat, k)
    ensures k + |pat| <= |s|
    ensures ReplaceOrdinal(s[k..], pat, rep) == rep + ReplaceOrdinal(s[k + |pat|..], pat, rep)
  {
    assert s[k..][|pat|..] == s[k + |pat|..];
  }

  lemma ConsSlice(s: string, k: nat, j: nat, x: string)
    requires k < j <= |s|
    ensures [s[k]] + (s[k + 1..j] + x) == s[k..j] + x
  {
    assert [s[k]] + s[k + 1..j] == s[k..j];
  }

  /** From position `k`, up to the first occurrence `j` the replacement
      copies the text, then rewrites the occurrence at `j` and carries on
      after it. */
  lemma {:induction false} ReplaceUpToOccurrence(s: string, pat: string, rep: string, k: nat, j: nat)
    requires |pat| > 0 && k <= j && OccursAt(s, pat, j)
    requires forall m: nat :: k <= m < j ==> !OccursAt(s, pat, m)
    ensures j + |pat| <= |s|
    ensures ReplaceOrdinal(s[k..], pat, rep) == s[k..j] + rep + ReplaceOrdinal(s[j + |pat|..], pat, rep)
    decreases j - k
  {
    RewriteStep(s, pat, rep, j);
    if k < j {
      CopyStep(s, pat, rep, k);
      ReplaceUpToOccurrence(s, pat, rep, k + 1, j);
      ConsSlice(s, k, j, rep + ReplaceOrdinal(s[j + |pat|..], pat, rep));
    }
  }

  /** From position `k` with no occurrence at or after it, the replacement
      copies the rest of the text. */
  lemma {:induction false} ReplaceRestWithoutOccurrence(s: string, pat: string, rep: string, k: nat)
    requires |pat| > 0 && k <= |s|
    requires forall m: nat :: k <= m ==> !OccursAt(s, pat, m)
    ensures ReplaceOrdinal(s[k..], pat, rep) == s[k..]
    decreases |s| - k
  {
    if k + |pat| <= |s| {
      CopyStep(s, pat, rep, k);
      ReplaceRestWithoutOccurrence(s, pat, rep, k + 1);
      assert [s[k]] + s[k + 1..] == s[k..];
    }
  }

  /** The leftmost occurrence `j` splits the replacement: the text before it
      is copied, that occurrence is rewritten, and the scan resumes after
      it, so rewritten occurrences never overlap. */
  lemma ReplaceAtFirstOccurrence(t: string, pat: string, rep: string, j: nat)
    requires |pat| > 0 && OccursAt(t, pat, j)
    requires forall m: nat :: m < j ==> !OccursAt(t, pat, m)
    ensures j + |pat| <= |t|
    ensures ReplaceOrdinal(t, pat, rep) == t[..j] + rep + ReplaceOrdinal(t[j + |pat|..], pat, rep)
  {
    ReplaceUpToOccurrence(t, pat, rep, 0, j);
    assert t[0..] == t;
  }

  /** A string without `pat` is left as it is. */
  lemma ReplaceWithoutOccurrence(t: string, pat: string, rep: string)
    requires |pat| > 0
    requires forall m: nat :: !OccursAt(t, pat, m)
    ensures ReplaceOrdinal(t, pat, rep) == t
  {
    ReplaceRestWithoutOccurrence(t, pat, rep, 0);
    assert t[0..] == t;
  }

  /** A string that does not contain the first character of `pat` does not
      contain `pat`. */
  lemma NoFirstCharNoOccurrence(a: string, pat: string)
    requires |pat| > 0 && pat[0] !in a
    ensures !Contains(a, pat)
  {
    forall i: nat | i <= |a|
      ensures !OccursAt(a, pat, i)
    {
      if i < |a| {
        assert a[i..][0] == a[i];
      }
    }
  }

  /** `pat` begins with a character that appears nowhere else in it (true of
      "ViewModel"), so no proper suffix of `pat` is also a prefix of it. */
  predicate FirstCharUnique(pat: string) {
    |pat| > 0 && forall j :: 0 < j < |pat| ==> pat[j] != pat[0]
  }

  lemma ViewModelWordFirstCharUnique()
    ensures FirstCharUnique(ViewModelWord)
  {
  }

  /** No occurrence starts at the front of `a + b` when `a` holds none and
      `b` starts with the first character of `pat`: it would lie inside `a`,
      or it would put `b[0]`, which is `pat[0]`, at a later position of `pat`. */
  lemma NoOccurrenceAtJoin(a: string, b: string, pat: string)
    requires FirstCharUnique(pat)
    requires !Contains(a, pat) && |a| > 0
    requires |b| > 0 && b[0] == pat[0]
    ensures !StartsWith(a + b, pat)
  {
    var s := a + b;
    if |a| >= |pat| {
      assert a[0..] == a;
      assert !OccursAt(a, pat, 0);
      assert forall k :: 0 <= k < |pat| ==> s[k] == a[k];
    } else if |pat| <= |s| {
      assert s[|a|] == b[0];
      assert pat[|a|] != pat[0];
    }
  }

  /** Dropping the first character keeps a string free of `pat`. */
  lemma NoOccurrenceInTail(a: string, pat: string)
    requires !Contains(a, pat) && |a| > 0
    ensures !Contains(a[1..], pat)
  {
    OccursInSuffix(a, pat, 1);
    forall i: nat | i <= |a[1..]|
      ensures !OccursAt(a[1..], pat, i)
    {
      assert !OccursAt(a, pat, 1 + i);
    }
  }

  /** Text without an occurrence of `pat`, followed by text that starts with
      the first character of `pat`, is copied through unchanged, provided that
      character appears nowhere else in `pat`. */
  lemma {:induction false} ReplaceCopiesUnmatched(a: string, b: string, pat: string, rep: string)
    requires FirstCharUnique(pat)
    requires !Contains(a, pat)
    requires |b| > 0 && b[0] == pat[0]
    ensures ReplaceOrdinal(a + b, pat, rep) == a + ReplaceOrdinal(b, pat, rep)
    decreases |a|
  {
    var s := a + b;
    if |a| == 0 {
      assert s == b;
    } else {
      NoOccurrenceAtJoin(a, b, pat);
      if |s| >= |pat| {
        assert s[1..] == a[1..] + b;
        NoOccurrenceInTail(a, pat);
        ReplaceCopiesUnmatched(a[1..], b, pat, rep);
        assert a == [a[0]] + a[1..];
      } else {
        assert ReplaceOrdinal(b, pat, rep) == b;
      }
    }
  }

  /** The first position at or after `from` where `pat` occurs (`IndexOf`). */
  function IndexOf(s: string, pat: string, from: nat): (r: Option<nat>)
    requires |pat| > 0
    decreases |s| - from
  {
    if from + |pat| > |s| then None
    else if OccursAt(s, pat, from) then Some(from)
    else IndexOf(s, pat, from + 1)
  }

  /** `IndexOf` finds the leftmost occurrence at or after `from`, and
      reports none only when there is none. */
  lemma {:induction false} IndexOfFindsFirst(s: string, pat: string, from: nat)
    requires |pat| > 0
    ensures IndexOf(s, pat, from).Some? ==>
      var j := IndexOf(s, pat, from).value;
      from <= j && OccursAt(s, pat, j) && forall m: nat :: from <= m < j ==> !OccursAt(s, pat, m)
    ensures IndexOf(s, pat, from).None? ==> forall m: nat :: from <= m ==> !OccursAt(s, pat, m)
    decreases |s| - from
  {
    if from + |pat| <= |s| && !OccursAt(s, pat, from) {
      IndexOfFindsFirst(s, pat, from + 1);
    }
  }

  /** The replacement as `string.Replace` performs it: find the next
      occurrence with `IndexOf`, copy the text before it, emit `rep`, and
      resume the search after the occurrence. */
  function ScanFrom(s: string, pat: string, rep: string, pos: nat): string
    requires |pat| > 0 && pos <= |s|
    decreases |s| - pos
  {
    IndexOfFindsFirst(s, pat, pos);
    match IndexOf(s, pat, pos)
    case None => s[pos..]
    case Some(j) => s[pos..j] + rep + ScanFrom(s, pat, rep, j + |pat|)
  }

  /** The `IndexOf`-driven scan and the character-by-character definition
      agree on every suffix of every string. */
  lemma {:induction false} ScanFromAgrees(s: string, pat: string, rep: string, pos: nat)
    requires |pat| > 0 && pos <= |s|
    ensures ScanFrom(s, pat, rep, pos) == ReplaceOrdinal(s[pos..], pat, rep)
    decreases |s| - pos
  {
    IndexOfFindsFirst(s, pat, pos);
    match IndexOf(s, pat, pos)
    case None =>
      ReplaceRestWithoutOccurrence(s, pat, rep, pos);
    case Some(j) =>
      ReplaceUpToOccurrence(s, pat, rep, pos, j);
      ScanFromAgrees(s, pat, rep, j + |pat|);
  }

  /** Scanning the whole name from position 0 computes `ReplaceOrdinal`. */
  lemma ReplaceByScan(s: string, pat: string, rep: string)
    requires |pat| > 0
    ensures ScanFrom(s, pat, rep, 0) == ReplaceOrdinal(s, pat, rep)
  {
    ScanFromAgrees(s, pat, rep, 0);
    assert s[0..] == s;
  }

  /** The view type name the convention derives from a view-model type. */
  function ViewName(t: RuntimeType): (r: string)
    ensures |r| == |t.fullName| - 5 * ReplacedCount(t.fullName, ViewModelWord)
  {
    ViewNameLength(t.fullName);
    ReplaceOrdinal(t.fullName, ViewModelWord, ViewWord)
  }

  /** `Build`: null gives null; otherwise the derived view name is looked up,
      yielding that view when it is known and otherwise a `TextBlock` that
      names the missing view. */
  function Build(param: Option<RuntimeType>, knownViews: set<string>): (r: Option<Control>)
    ensures param.None? <==> r.None?
    ensures param.Some? && ViewName(param.value) in knownViews ==>
      r == Some(ViewInstance(ViewName(param.value)))
    ensures param.Some? && ViewName(param.value) !in knownViews ==>
      r == Some(TextBlock(NotFoundPrefix + ViewName(param.value)))
  {
    match param
    case None => None
    case Some(t) =>
      var name := ViewName(t);
      if name in knownViews then Some(ViewInstance(name))
      else Some(TextBlock(NotFoundPrefix + name))
  }

  /** `data is ViewModelBase`: false for null, otherwise true when the
      object's type is `ViewModelBase` or derives from it. */
  predicate Match(data: Option<RuntimeType>) {
    match data
    case None => false
    case Some(t) => t.fullName == ViewModelBaseName || ViewModelBaseName in t.baseTypes
  }

  /** Every shortening of the name comes from a rewritten `ViewModel`: the
      view name is 5 characters shorter per occurrence, and equals the type
      name exactly when the type name has no `ViewModel` in it. */
  lemma {:induction false} ViewNameLength(s: string)
    ensures |ReplaceOrdinal(s, ViewModelWord, ViewWord)| == |s| - 5 * ReplacedCount(s, ViewModelWord)
    decreases |s|
  {
    if |s| >= |ViewModelWord| {
      if StartsWith(s, ViewModelWord) {
        ViewNameLength(s[|ViewModelWord|..]);
      } else {
        ViewNameLength(s[1..]);
      }
    }
  }

  lemma ViewNameUnchangedIffNoViewModel(t: RuntimeType)
    ensures ViewName(t) == t.fullName <==> !Contains(t.fullName, ViewModelWord)
  {
    ContainsIffReplaced(t.fullName, ViewModelWord);
    if !Contains(t.fullName, ViewModelWord) {
      ReplaceWithoutOccurrence(t.fullName, ViewModelWord, ViewWord);
    }
  }

  /** The outcome is decided by the known views alone: a view is built iff
      its derived name is known, and otherwise the placeholder's text is the
      prefix followed by exactly that name. */
  lemma BuildOutcome(t: RuntimeType, knownViews: set<string>)
    ensures Build(Some(t), knownViews).value.ViewInstance? <==> ViewName(t) in knownViews
    ensures Build(Some(t), knownViews).value.TextBlock? ==>
      var text := Build(Some(t), knownViews).value.text;
      |text| >= |NotFoundPrefix| && text[..|NotFoundPrefix|] == NotFoundPrefix
        && text[|NotFoundPrefix|..] == ViewName(t)
  {
  }

  const StudentViewModelType: RuntimeType :=
    RuntimeType("AvaloniaMvvmTutorial.Shared.ViewModels.StudentViewModel",
      [ViewModelBaseName, "CommunityToolkit.Mvvm.ComponentModel.ObservableObject", "System.Object"])

  const StudentModelType: RuntimeType :=
    RuntimeType("AvaloniaMvvmTutorial.Shared.Models.Student", ["System.Object"])

  /** The locator claims both view-models, since they derive from
      `ViewModelBase`, but neither null nor the plain `Student` record. */
  lemma MatchClaimsViewModelsOnly()
    ensures Match(Some(StudentViewModelType))
    ensures Match(Some(RuntimeType(ViewModelBaseName, ["System.Object"])))
    ensures !Match(None)
    ensures !Match(Some(StudentModelType))
    ensures forall t: RuntimeType :: ViewModelBaseName in t.baseTypes ==> Match(Some(t))
    ensures forall t: RuntimeType :: t.fullName != ViewModelBaseName && ViewModelBaseName !in t.baseTypes ==> !Match(Some(t))
  {
  }

  /** `Build` produces a control for every non-null object, whether or not
      its view is known; in particular for every object `Match` claims. */
  lemma NonNullAlwaysBuilds(data: Option<RuntimeType>, knownViews: set<string>)
    requires data.Some?
    ensures Build(data, knownViews).Some?
  {
  }

  /** `is ViewModelBase` is inherited: a class derived directly from a
      claimed class is claimed as well, and so, by repetition, is every
      class further down the hierarchy. */
  lemma MatchInheritedBySubclasses(t: RuntimeType, u: RuntimeType)
    requires Match(Some(t)) && u.baseTypes == [t.fullName] + t.baseTypes
    ensures Match(Some(u))
  {
  }

  /** The convention on a namespaced view-model: `P.ViewModels.XViewModel`
      becomes `P.Views.XView`, because both the namespace segment and the
      class name suffix are rewritten (for `P` and `X` that do not contain
      `ViewModel` themselves). */
  lemma ConventionRewritesNamespaceAndClass(prefix: string, stem: string)
    requires !Contains(prefix, ViewModelWord) && !Contains(stem, ViewModelWord)
    ensures ReplaceOrdinal(prefix + "ViewModels." + stem + "ViewModel", ViewModelWord, ViewWord)
         == prefix + "Views." + stem + "View"
    ensures ReplacedCount(prefix + "ViewModels." + stem + "ViewModel", ViewModelWord) == 2
  {
    var pat, rep := ViewModelWord, ViewWord;
    var mid := "s." + stem;
    var tail := mid + pat;
    var t := pat + tail;
    ViewModelWordFirstCharUnique();
    assert "ViewModels." == pat + "s.";
    assert "Views." == rep + "s.";
    assert prefix + "ViewModels." + stem + "ViewModel" == prefix + t;
    assert prefix + "Views." + stem + "View" == prefix + (rep + (mid + rep));
    // `prefix` is copied, and the first occurrence starts right after it.
    ReplaceCopiesUnmatched(prefix, t, pat, rep);
    assert t[..|pat|] == pat;
    assert StartsWith(t, pat);
    assert t[|pat|..] == tail;
    // `s.` + `stem` holds no occurrence, so it is copied up to the class suffix.
    assert !Contains(mid, pat) by {
      OccursInSuffix(mid, pat, 2);
      assert mid[2..] == stem;
      forall i: nat | i <= |mid|
        ensures !OccursAt(mid, pat, i)
      {
        if i >= 2 {
          assert !OccursAt(stem, pat, i - 2);
        } else if i < |mid| {
          assert mid[i..][0] == mid[i];
        }
      }
    }
    ReplaceCopiesUnmatched(mid, pat, pat, rep);
    assert pat[0..] == pat;
    assert ReplaceOrdinal(pat, pat, rep) == rep + ReplaceOrdinal(pat[|pat|..], pat, rep);
    assert pat[|pat|..] == "";
    ViewNameLength(prefix + t);
  }

  /** The main view-model's type name, split into its namespace, the
      namespace segment, the class stem and the class suffix. */
  lemma MainWindowViewModelName()
    ensures "AvaloniaMvvmTutorial.Shared." + "ViewModels." + "MainWindow" + "ViewModel"
         == "AvaloniaMvvmTutorial.Shared.ViewModels.MainWindowViewModel"
  {
  }

  lemma MainWindowViewName()
    ensures "AvaloniaMvvmTutorial.Shared." + "Views." + "MainWindow" + "View"
         == "AvaloniaMvvmTutorial.Shared.Views.MainWindowView"
  {
  }

  const MainWindowViewModelType: RuntimeType :=
    RuntimeType("AvaloniaMvvmTutorial.Shared.ViewModels.MainWindowViewModel",
      [ViewModelBaseName, "CommunityToolkit.Mvvm.ComponentModel.ObservableObject", "System.Object"])

  /** The name the convention derives for the main view-model is
      `...Views.MainWindowView`: both occurrences are rewritten, so it is not
      the `...Views.MainView` the comment beside the call describes. */
  lemma MainWindowViewModelMapsToMainWindowView()
    ensures ViewName(MainWindowViewModelType) == "AvaloniaMvvmTutorial.Shared.Views.MainWindowView"
    ensures ViewName(MainWindowViewModelType) != "AvaloniaMvvmTutorial.Shared.Views.MainView"
    ensures ReplacedCount(MainWindowViewModelType.fullName, ViewModelWord) == 2
    ensures Match(Some(MainWindowViewModelType))
  {
    var ns, stem := "AvaloniaMvvmTutorial.Shared.", "MainWindow";
    MainWindowViewModelName();
    MainWindowViewName();
    assert 'V' !in ns;
    assert 'V' !in stem;
    NoFirstCharNoOccurrence(ns, ViewModelWord);
    NoFirstCharNoOccurrence(stem, ViewModelWord);
    ConventionRewritesNamespaceAndClass(ns, stem);
  }
}
