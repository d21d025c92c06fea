/** The certification part of the profile screen (components/ProfileScreen.tsx):
    which results count as released, the de-duplicated list of eligible
    test names, the selection toggle and the application form. */
module Profile {
  import opened Common
  import opened Text

  // The texts the screen shows.
  const NoTestSelected := "Please select at least one test for certification"
  // The screen's literal title: its last four characters are a party-popper
  // emoji whose UTF-8 bytes were decoded as Mac Roman. They are kept as shown.
  const SubmittedTitle := "Application Submitted! \U{F8FF}\U{00FC}\U{00E9}\U{00E2}"
  const SubmittedMessage := "Your certification application has been submitted successfully. You will be contacted within 2-3 business days."

  /** An entry of `getMyTestResults`. */
  datatype TestResult = TestResult(title: string, status: string)

  /** An entry of a student's completed tests. */
  datatype CompletedTest = CompletedTest(title: string, status: string)

  /** One element of the completed-tests list: a student and their tests. */
  datatype StudentTests = StudentTests(studentId: int, completed: seq<CompletedTest>)

  const ResultReleased := "released"
  const CompletedReleased := "result_released"

  // ---------------------------------------------------------------------
  // hasReleasedResults and getReleasedTestNames
  // ---------------------------------------------------------------------

  predicate SomeResultReleased(results: seq<TestResult>) {
    exists i :: 0 <= i < |results| && results[i].status == ResultReleased
  }

  predicate SomeCompletedReleased(students: seq<StudentTests>) {
    exists j, k :: 0 <= j < |students| && 0 <= k < |students[j].completed|
                   && students[j].completed[k].status == CompletedReleased
  }

  /** `hasReleasedResults`: some result is `released`, or some completed
      test of any student in the list is `result_released`. */
  predicate HasReleasedResults(results: seq<TestResult>, students: seq<StudentTests>) {
    SomeResultReleased(results) || SomeCompletedReleased(students)
  }

  /** Some released result is titled `t`. */
  predicate ReleasedResultTitled(results: seq<TestResult>, t: string) {
    exists i :: 0 <= i < |results| && results[i] == TestResult(t, ResultReleased)
  }

  /** Some released completed test in the list is titled `t`. */
  predicate ReleasedCompletedTitled(tests: seq<CompletedTest>, t: string) {
    exists k :: 0 <= k < |tests| && tests[k] == CompletedTest(t, CompletedReleased)
  }

  /** Some student in the list has a released completed test titled `t`. */
  predicate AnyStudentReleasedTitled(students: seq<StudentTests>, t: string) {
    exists j :: 0 <= j < |students| && ReleasedCompletedTitled(students[j].completed, t)
  }

  /** The titles of the released results, in order. */
  function ReleasedResultTitles(results: seq<TestResult>): (r: seq<string>)
    ensures |r| > 0 <==> SomeResultReleased(results)
    ensures forall t :: t in r <==> ReleasedResultTitled(results, t)
  {
    if |results| == 0 then []
    else
      var rest := ReleasedResultTitles(results[1..]);
      assert forall i :: 1 <= i < |results| ==> results[i] == results[1..][i - 1];
      assert SomeResultReleased(results[1..]) ==> SomeResultReleased(results) by {
        if SomeResultReleased(results[1..]) {
          var i :| 0 <= i < |results[1..]| && results[1..][i].status == ResultReleased;
          assert results[i + 1].status == ResultReleased;
        }
      }
      assert forall t :: ReleasedResultTitled(results, t) <==>
                         ReleasedResultTitled(results[1..], t) || results[0] == TestResult(t, ResultReleased) by {
        forall t ensures ReleasedResultTitled(results, t) <==>
                         ReleasedResultTitled(results[1..], t) || results[0] == TestResult(t, ResultReleased) {
          if ReleasedResultTitled(results[1..], t) {
            var i :| 0 <= i < |results[1..]| && results[1..][i] == TestResult(t, ResultReleased);
            assert results[i + 1] == results[1..][i];
          }
          if ReleasedResultTitled(results, t) {
            var i :| 0 <= i < |results| && results[i] == TestResult(t, ResultReleased);
            if i > 0 { assert results[1..][i - 1] == results[i]; }
          }
        }
      }
      if results[0].status == ResultReleased then [results[0].title] + rest else rest
  }

  /** The titles of one student's released completed tests, in order. */
  function ReleasedCompletedTitles(tests: seq<CompletedTest>): (r: seq<string>)
    ensures forall t :: t in r <==> ReleasedCompletedTitled(tests, t)
  {
    if |tests| == 0 then []
    else
      var rest := ReleasedCompletedTitles(tests[1..]);
      assert forall t :: ReleasedCompletedTitled(tests, t) <==>
                         ReleasedCompletedTitled(tests[1..], t) || tests[0] == CompletedTest(t, CompletedReleased) by {
        forall t ensures ReleasedCompletedTitled(tests, t) <==>
                         ReleasedCompletedTitled(tests[1..], t) || tests[0] == CompletedTest(t, CompletedReleased) {
          if ReleasedCompletedTitled(tests[1..], t) {
            var k :| 0 <= k < |tests[1..]| && tests[1..][k] == CompletedTest(t, CompletedReleased);
            assert tests[k + 1] == tests[1..][k];
          }
          if ReleasedCompletedTitled(tests, t) {
            var k :| 0 <= k < |tests| && tests[k] == CompletedTest(t, CompletedReleased);
            if k > 0 { assert tests[1..][k - 1] == tests[k]; }
          }
        }
      }
      if tests[0].status == CompletedReleased then [tests[0].title] + rest else rest
  }

  /** `forEach` with `push` keeps the list's order: the released result
      titles distribute over concatenation, one entry contributing its title
      exactly when it is released. */
  lemma {:induction false} ReleasedResultTitlesAppend(a: seq<TestResult>, b: seq<TestResult>)
    ensures ReleasedResultTitles(a + b) == ReleasedResultTitles(a) + ReleasedResultTitles(b)
    decreases |a|
  {
    if |a| == 0 {
      assert a + b == b;
    } else {
      assert (a + b)[0] == a[0];
      assert (a + b)[1..] == a[1..] + b;
      ReleasedResultTitlesAppend(a[1..], b);
    }
  }

  lemma ReleasedResultTitlesOne(x: TestResult)
    ensures ReleasedResultTitles([x]) == if x.status == ResultReleased then [x.title] else []
  {
    assert [x][1..] == [];
  }

  /** The same for one student's completed tests. */
  lemma {:induction false} ReleasedCompletedTitlesAppend(a: seq<CompletedTest>, b: seq<CompletedTest>)
    ensures ReleasedCompletedTitles(a + b) == ReleasedCompletedTitles(a) + ReleasedCompletedTitles(b)
    decreases |a|
  {
    if |a| == 0 {
      assert a + b == b;
    } else {
      assert (a + b)[0] == a[0];
      assert (a + b)[1..] == a[1..] + b;
      ReleasedCompletedTitlesAppend(a[1..], b);
    }
  }

  lemma ReleasedCompletedTitlesOne(x: CompletedTest)
    ensures ReleasedCompletedTitles([x]) == if x.status == CompletedReleased then [x.title] else []
  {
    assert [x][1..] == [];
  }

  /** The released completed-test titles of every student, student by student. */
  function AllCompletedTitles(students: seq<StudentTests>): seq<string>
  {
    if |students| == 0 then []
    else ReleasedCompletedTitles(students[0].completed) + AllCompletedTitles(students[1..])
  }

  /** Students are visited in list order. */
  lemma {:induction false} AllCompletedTitlesAppend(a: seq<StudentTests>, b: seq<StudentTests>)
    ensures AllCompletedTitles(a + b) == AllCompletedTitles(a) + AllCompletedTitles(b)
    decreases |a|
  {
    if |a| == 0 {
      assert a + b == b;
    } else {
      assert (a + b)[0] == a[0];
      assert (a + b)[1..] == a[1..] + b;
      AllCompletedTitlesAppend(a[1..], b);
    }
  }

  /** The titles of every released completed test of any student. */
  lemma {:induction false} AllCompletedTitlesMembers(students: seq<StudentTests>, t: string)
    ensures t in AllCompletedTitles(students) <==> AnyStudentReleasedTitled(students, t)
  {
    if |students| > 0 {
      var rest := students[1..];
      AllCompletedTitlesMembers(rest, t);
      if AnyStudentReleasedTitled(rest, t) {
        var j :| 0 <= j < |rest| && ReleasedCompletedTitled(rest[j].completed, t);
        assert students[j + 1] == rest[j];
      }
      if AnyStudentReleasedTitled(students, t) {
        var j :| 0 <= j < |students| && ReleasedCompletedTitled(students[j].completed, t);
        if j > 0 { assert rest[j - 1] == students[j]; }
      }
    }
  }

  /** The title list `getReleasedTestNames` builds before removing duplicates. */
  function CollectedTitles(results: seq<TestResult>, students: seq<StudentTests>): seq<string> {
    ReleasedResultTitles(results) + AllCompletedTitles(students)
  }

  /** `[...new Set(xs)]`: the distinct elements, each at its first occurrence. */
  function Dedupe(xs: seq<string>): (r: seq<string>)
    ensures forall i, j :: 0 <= i < j < |r| ==> r[i] != r[j]
    ensures forall x :: x in r <==> x in xs
    ensures |r| <= |xs|
    decreases |xs|
  {
    if |xs| == 0 then []
    else
      var init := Dedupe(xs[..|xs| - 1]);
      assert forall x :: x in xs <==> x in xs[..|xs| - 1] || x == xs[|xs| - 1] by {
        assert xs == xs[..|xs| - 1] + [xs[|xs| - 1]];
      }
      if xs[|xs| - 1] in init then init else init + [xs[|xs| - 1]]
  }

  /** The position of the first occurrence of `x`. */
  function FirstIndex(xs: seq<string>, x: string): (i: nat)
    requires x in xs
    ensures i < |xs| && xs[i] == x && x !in xs[..i]
  {
    if xs[0] == x then 0 else 1 + FirstIndex(xs[1..], x)
  }

  /** Elements are listed in the order of their first occurrences. */
  lemma {:induction false} DedupeKeepsFirstOccurrenceOrder(xs: seq<string>, i: int, j: int)
    requires 0 <= i < j < |Dedupe(xs)|
    ensures FirstIndex(xs, Dedupe(xs)[i]) < FirstIndex(xs, Dedupe(xs)[j])
    decreases |xs|
  {
    var init := xs[..|xs| - 1];
    var last := xs[|xs| - 1];
    var d := Dedupe(init);
    assert xs == init + [last];
    forall x | x in init ensures FirstIndex(xs, x) == FirstIndex(init, x) {
      FirstIndexPrefix(init, [last], x);
    }
    if last in d {
      DedupeKeepsFirstOccurrenceOrder(init, i, j);
    } else if j < |d| {
      DedupeKeepsFirstOccurrenceOrder(init, i, j);
    } else {
      assert Dedupe(xs)[j] == last && last !in init;
      assert Dedupe(xs)[i] == d[i] && d[i] in init;
      var fi := FirstIndex(init, d[i]);
      assert FirstIndex(xs, last) == |init| by {
        FirstIndexLast(init, last);
      }
    }
  }

  lemma {:induction false} FirstIndexPrefix(a: seq<string>, b: seq<string>, x: string)
    requires x in a
    ensures FirstIndex(a + b, x) == FirstIndex(a, x)
    decreases |a|
  {
    if a[0] != x {
      assert (a + b)[1..] == a[1..] + b;
      FirstIndexPrefix(a[1..], b, x);
    }
  }

  lemma {:induction false} FirstIndexLast(a: seq<string>, x: string)
    requires x !in a
    ensures FirstIndex(a + [x], x) == |a|
    decreases |a|
  {
    if |a| > 0 {
      assert (a + [x])[1..] == a[1..] + [x];
      FirstIndexLast(a[1..], x);
    }
  }

  /** A list without duplicates is left as it is. */
  lemma {:induction false} DedupeDistinct(xs: seq<string>)
    requires forall i, j :: 0 <= i < j < |xs| ==> xs[i] != xs[j]
    ensures Dedupe(xs) == xs
    decreases |xs|
  {
    if |xs| > 0 {
      var init := xs[..|xs| - 1];
      DedupeDistinct(init);
      assert xs[|xs| - 1] !in init;
      assert init + [xs[|xs| - 1]] == xs;
    }
  }

  /** `getReleasedTestNames`: the names are distinct, and a name is listed
      exactly when a released result or some student's released completed
      test carries it. */
  function ReleasedTestNames(results: seq<TestResult>, students: seq<StudentTests>): (names: seq<string>)
    ensures forall i, j :: 0 <= i < j < |names| ==> names[i] != names[j]
    ensures forall t :: t in names <==> ReleasedResultTitled(results, t) || AnyStudentReleasedTitled(students, t)
  {
    assert forall t :: t in AllCompletedTitles(students) <==> AnyStudentReleasedTitled(students, t) by {
      forall t ensures t in AllCompletedTitles(students) <==> AnyStudentReleasedTitled(students, t) {
        AllCompletedTitlesMembers(students, t);
      }
    }
    Dedupe(CollectedTitles(results, students))
  }

  /** The certification card shows exactly when there is an eligible name. */
  lemma HasReleasedIffNames(results: seq<TestResult>, students: seq<StudentTests>)
    ensures HasReleasedResults(results, students) <==> ReleasedTestNames(results, students) != []
  {
    var collected := CollectedTitles(results, students);
    if SomeCompletedReleased(students) {
      var j, k :| 0 <= j < |students| && 0 <= k < |students[j].completed|
                  && students[j].completed[k].status == CompletedReleased;
      var t := students[j].completed[k].title;
      assert students[j].completed[k] == CompletedTest(t, CompletedReleased);
      assert ReleasedCompletedTitled(students[j].completed, t);
      AllCompletedTitlesMembers(students, t);
      assert t in collected;
    }
    if ReleasedTestNames(results, students) != [] {
      var t := ReleasedTestNames(results, students)[0];
      assert t in collected;
      if t !in ReleasedResultTitles(results) {
        AllCompletedTitlesMembers(students, t);
        var j :| 0 <= j < |students| && ReleasedCompletedTitled(students[j].completed, t);
        var k :| 0 <= k < |students[j].completed| && students[j].completed[k] == CompletedTest(t, CompletedReleased);
        assert students[j].completed[k].status == CompletedReleased;
      }
    }
  }

  /** The released list is taken from every student in the completed-tests
      list, not only the signed-in one: another student's released test makes
      the card appear and offers that test's name. */
  lemma OtherStudentsCount(me: int, other: int, title: string)
    requires me != other
    ensures var students := [StudentTests(me, []), StudentTests(other, [CompletedTest(title, CompletedReleased)])];
            && CurrentStudentTests(students, Some(me)) == Some(StudentTests(me, []))
            && HasReleasedResults([], students)
            && ReleasedTestNames([], students) == [title]
  {
    var released := [CompletedTest(title, CompletedReleased)];
    var students := [StudentTests(me, []), StudentTests(other, released)];
    assert students[1].completed[0].status == CompletedReleased;
    assert ReleasedCompletedTitles([]) == [];
    assert ReleasedCompletedTitles(released) == [title] by {
      assert released[1..] == [];
    }
    assert students[1..] == [StudentTests(other, released)];
    assert AllCompletedTitles(students[1..]) == [title] by {
      assert students[1..][1..] == [];
    }
    assert AllCompletedTitles(students) == [title];
    assert CollectedTitles([], students) == [title];
    assert Dedupe([title]) == [title] by {
      assert [title][..0] == [];
    }
  }

  // ---------------------------------------------------------------------
  // The certification form
  // ---------------------------------------------------------------------

  datatype CertificationForm = CertificationForm(name: string, email: string, mobile: string, selected: seq<string>)

  const EmptyCertificationForm := CertificationForm("", "", "", [])

  /** `selectedTests.filter(test => test !== name)`: every copy of `name`
      goes and every other name keeps all its copies. The order is stated by
      `RemoveAppend` and `RemoveOne`. */
  function Remove(xs: seq<string>, name: string): (r: seq<string>)
    ensures name !in r && |r| <= |xs|
    ensures forall x :: x != name ==> multiset(r)[x] == multiset(xs)[x]
    ensures forall x :: x != name ==> (x in r <==> x in xs)
    ensures name !in xs ==> r == xs
  {
    if |xs| == 0 then []
    else
      assert xs == [xs[0]] + xs[1..];
      assert multiset(xs) == multiset{xs[0]} + multiset(xs[1..]);
      if xs[0] == name then Remove(xs[1..], name)
      else [xs[0]] + Remove(xs[1..], name)
  }

  /** The filter distributes over concatenation, so the kept names stay in
      their order. */
  lemma {:induction false} RemoveAppend(a: seq<string>, b: seq<string>, name: string)
    ensures Remove(a + b, name) == Remove(a, name) + Remove(b, name)
    decreases |a|
  {
    if |a| == 0 {
      assert a + b == b;
    } else {
      assert (a + b)[0] == a[0];
      assert (a + b)[1..] == a[1..] + b;
      RemoveAppend(a[1..], b, name);
    }
  }

  /** On one element the filter keeps it exactly when it differs from `name`. */
  lemma RemoveOne(x: string, name: string)
    ensures Remove([x], name) == if x == name then [] else [x]
  {
    assert [x][1..] == [];
  }

  /** `toggleTestSelection(name)` on the selection list: a selected name is
      filtered out, an unselected one is appended at the end. */
  function Toggle(xs: seq<string>, name: string): (r: seq<string>)
    ensures name in r <==> name !in xs
    ensures forall x :: x != name ==> (x in r <==> x in xs)
    ensures name !in xs ==> r == xs + [name]
    ensures name in xs ==> r == Remove(xs, name)
  {
    if name in xs then Remove(xs, name) else xs + [name]
  }

  /** `toggleTestSelection(name)` on the form: only the selection changes. */
  function ToggleTestSelection(f: CertificationForm, name: string): (r: CertificationForm)
    ensures r.name == f.name && r.email == f.email && r.mobile == f.mobile
    ensures name in r.selected <==> name !in f.selected
    ensures forall x :: x != name ==> (x in r.selected <==> x in f.selected)
  {
    f.(selected := Toggle(f.selected, name))
  }

  /** Selecting a name and deselecting it again restores the selection. */
  lemma ToggleTwiceRestores(xs: seq<string>, name: string)
    requires name !in xs
    ensures Toggle(Toggle(xs, name), name) == xs
  {
    RemoveAppended(xs, name);
  }

  lemma {:induction false} RemoveAppended(xs: seq<string>, name: string)
    requires name !in xs
    ensures Remove(xs + [name], name) == xs
    decreases |xs|
  {
    if |xs| == 0 {
      assert [name][1..] == [];
    } else {
      assert (xs + [name])[1..] == xs[1..] + [name];
      RemoveAppended(xs[1..], name);
      assert [xs[0]] + xs[1..] == xs;
    }
  }

  /** Deselecting removes every copy of a name, so toggling a name listed
      twice and toggling it back leaves it listed once, at the end. */
  lemma ToggleRemovesEveryCopy(name: string, other: string)
    requires other != name
    ensures Toggle([name, other, name], name) == [other]
    ensures Toggle(Toggle([name, other, name], name), name) == [other, name]
  {
    assert [name, other, name][1..] == [other, name];
    assert [other, name][1..] == [name];
    assert [name][1..] == [];
    assert Remove([name], name) == [];
    assert Remove([other, name], name) == [other];
    assert Remove([name, other, name], name) == [other];
    assert name !in [other];
  }

  datatype Event = Alert(title: string, message: string)

  datatype Step = Step(next: CertificationForm, events: seq<Event>)

  /** `handleCertificationSubmit`: a blank name, email or mobile number is
      refused first, then an empty selection; an accepted application empties
      the form. */
  function CertificationSubmit(f: CertificationForm): (r: Step)
    ensures |r.events| == 1
    ensures Blank(f.name) || Blank(f.email) || Blank(f.mobile) ==>
              r == Step(f, [Alert("Error", RequiredFieldsMissing)])
    ensures !(Blank(f.name) || Blank(f.email) || Blank(f.mobile)) && f.selected == [] ==>
              r == Step(f, [Alert("Error", NoTestSelected)])
    ensures r.next == EmptyCertificationForm <==>
              f == EmptyCertificationForm || (!Blank(f.name) && !Blank(f.email) && !Blank(f.mobile) && f.selected != [])
  {
    if Blank(f.name) || Blank(f.email) || Blank(f.mobile) then
      Step(f, [Alert("Error", RequiredFieldsMissing)])
    else if |f.selected| == 0 then
      Step(f, [Alert("Error", NoTestSelected)])
    else
      Step(EmptyCertificationForm,
           [Alert(SubmittedTitle,
                  SubmittedMessage)])
  }

  // ---------------------------------------------------------------------
  // The signed-in student's completed tests
  // ---------------------------------------------------------------------

  /** `completedTests.find(d => d.student.id === studentId)`; a missing
      student id matches nothing. */
  function CurrentStudentTests(students: seq<StudentTests>, studentId: Option<int>): (r: Option<StudentTests>)
    ensures r.None? <==> studentId.None? || forall j :: 0 <= j < |students| ==> students[j].studentId != studentId.value
    ensures r.Some? ==> exists j :: 0 <= j < |students| && students[j] == r.value
                                    && r.value.studentId == studentId.value
                                    && forall i :: 0 <= i < j ==> students[i].studentId != studentId.value
  {
    if studentId.None? || |students| == 0 then None
    else if students[0].studentId == studentId.value then Some(students[0])
    else
      var r := CurrentStudentTests(students[1..], studentId);
      assert forall j :: 1 <= j < |students| ==> students[j] == students[1..][j - 1];
      assert r.Some? ==> exists j :: 0 <= j < |students| && students[j] == r.value
                                    && r.value.studentId == studentId.value
                                    && forall i :: 0 <= i < j ==> students[i].studentId != studentId.value by {
        if r.Some? {
          var j :| 0 <= j < |students[1..]| && students[1..][j] == r.value
                   && r.value.studentId == studentId.value
                   && forall i :: 0 <= i < j ==> students[1..][i].studentId != studentId.value;
          assert students[j + 1] == r.value;
          forall i | 0 <= i < j + 1 ensures students[i].studentId != studentId.value {
            if i > 0 { assert students[i] == students[1..][i - 1]; }
          }
        }
      }
      r
  }
}
