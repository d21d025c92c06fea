/** The answer sheet of the test screen (app/test-screen.tsx): questions,
    the per-question answer records kept in a `Map` keyed by question id,
    the submit payload built from them, the answered counter and the local
    score computed after a successful submit. */
module TestAnswers {
  import opened Common
  import opened OrderedMap

  /** The four option letters `'a' | 'b' | 'c' | 'd'`. */
  datatype Choice = A | B | C | D

  /** The part of a question record the session logic reads. */
  datatype Question = Question(id: int, correctOption: Choice, marks: int)

  /** One answer record; `selectedOption` is `null` until an option is chosen. */
  datatype UserAnswer = UserAnswer(questionId: int, selectedOption: Option<Choice>, isAnswered: bool)

  /** One element of the `answers` array sent to the submit endpoint. */
  datatype AnswerPayload = AnswerPayload(questionId: int, selectedOption: Choice)

  /** The locally computed result shown after submission. */
  datatype Score = Score(correctAnswers: int, totalMarks: int)

  /** The answer sheet: a `Map<number, UserAnswer>` in insertion order. */
  type Answers = seq<(int, UserAnswer)>

  function QuestionIds(qs: seq<Question>): set<int> {
    set i | 0 <= i < |qs| :: qs[i].id
  }

  predicate DistinctIds(qs: seq<Question>) {
    forall i, j :: 0 <= i < j < |qs| ==> qs[i].id != qs[j].id
  }

  /** Every record is filed under its own question id, `isAnswered` agrees
      with whether an option is held, and no key occurs twice. */
  predicate Consistent(m: Answers) {
    && DistinctKeys(m)
    && forall i :: 0 <= i < |m| ==>
         m[i].1.questionId == m[i].0 && (m[i].1.isAnswered <==> m[i].1.selectedOption.Some?)
  }

  /** The record a question starts with: no option chosen. */
  function Unanswered(id: int): UserAnswer {
    UserAnswer(id, None, false)
  }

  // ---------------------------------------------------------------------
  // Initialisation after the questions are fetched
  // ---------------------------------------------------------------------

  /** The answer map built by `fetchQuestions`: one blank record per question,
      set in question order (a repeated id keeps its first position). */
  function InitialAnswers(qs: seq<Question>): (m: Answers)
    ensures Consistent(m)
    ensures Keys(m) == QuestionIds(qs)
    ensures forall i :: 0 <= i < |m| ==> m[i].1 == Unanswered(m[i].0)
    ensures DistinctIds(qs) ==> |m| == |qs| && forall i :: 0 <= i < |qs| ==> m[i].0 == qs[i].id
  {
    if |qs| == 0 then []
    else
      var prev := InitialAnswers(qs[..|qs| - 1]);
      var q := qs[|qs| - 1];
      InitialStep(qs, prev);
      Set(prev, q.id, Unanswered(q.id))
  }

  /** One step of building the sheet: adding the last question's blank
      record to the sheet of the others. */
  lemma InitialStep(qs: seq<Question>, prev: Answers)
    requires |qs| > 0
    requires Consistent(prev)
    requires Keys(prev) == QuestionIds(qs[..|qs| - 1])
    requires forall i :: 0 <= i < |prev| ==> prev[i].1 == Unanswered(prev[i].0)
    requires DistinctIds(qs[..|qs| - 1]) ==>
               |prev| == |qs| - 1 && forall i :: 0 <= i < |qs| - 1 ==> prev[i].0 == qs[i].id
    ensures var q := qs[|qs| - 1];
            var m := Set(prev, q.id, Unanswered(q.id));
            && Consistent(m)
            && Keys(m) == QuestionIds(qs)
            && (forall i :: 0 <= i < |m| ==> m[i].1 == Unanswered(m[i].0))
            && (DistinctIds(qs) ==> |m| == |qs| && forall i :: 0 <= i < |qs| ==> m[i].0 == qs[i].id)
  {
    var init := qs[..|qs| - 1];
    var q := qs[|qs| - 1];
    var m := Set(prev, q.id, Unanswered(q.id));
    SetKeys(prev, q.id, Unanswered(q.id));
    SetDistinct(prev, q.id, Unanswered(q.id));
    QuestionIdsSnoc(qs);
    UnansweredEntries(prev, q.id);
    if DistinctIds(qs) {
      assert DistinctIds(init) by {
        forall i, j | 0 <= i < j < |init| ensures init[i].id != init[j].id {
          assert init[i] == qs[i] && init[j] == qs[j];
        }
      }
      forall i | 0 <= i < |init| ensures init[i].id != q.id {
        assert init[i] == qs[i];
      }
      assert q.id !in Keys(prev);
      assert m == prev + [(q.id, Unanswered(q.id))];
      forall i | 0 <= i < |qs| ensures m[i].0 == qs[i].id {
        if i < |qs| - 1 { assert qs[i] == init[i]; }
      }
    }
  }

  lemma QuestionIdsSnoc(qs: seq<Question>)
    requires |qs| > 0
    ensures QuestionIds(qs) == QuestionIds(qs[..|qs| - 1]) + {qs[|qs| - 1].id}
  {
    var init := qs[..|qs| - 1];
    forall x | x in QuestionIds(qs) ensures x in QuestionIds(init) + {qs[|qs| - 1].id} {
      var i :| 0 <= i < |qs| && qs[i].id == x;
      if i < |qs| - 1 { assert init[i] == qs[i]; }
    }
    forall x | x in QuestionIds(init) ensures x in QuestionIds(qs) {
      var i :| 0 <= i < |init| && init[i].id == x;
      assert qs[i] == init[i];
    }
  }

  /** Setting a blank record keeps every record blank for its own key. */
  lemma UnansweredEntries(m: Answers, id: int)
    requires DistinctKeys(m)
    requires forall i :: 0 <= i < |m| ==> m[i].1 == Unanswered(m[i].0)
    ensures forall i :: 0 <= i < |Set(m, id, Unanswered(id))| ==>
              Set(m, id, Unanswered(id))[i].1 == Unanswered(Set(m, id, Unanswered(id))[i].0)
  {
    var r := Set(m, id, Unanswered(id));
    SetDistinct(m, id, Unanswered(id));
    forall i | 0 <= i < |r| ensures r[i].1 == Unanswered(r[i].0) {
      if i < |m| && m[i].0 != id {
        assert r[i] == m[i];
      } else if i < |m| {
        SetGet(m, id, Unanswered(id), id);
        GetAt(r, i);
      }
    }
  }

  // ---------------------------------------------------------------------
  // Selecting an option
  // ---------------------------------------------------------------------

  /** The record `handleAnswerSelect` stores for question `id`. */
  function Chosen(id: int, c: Choice): UserAnswer {
    UserAnswer(id, Some(c), true)
  }

  /** Storing a chosen option keeps the answer sheet consistent. */
  /** Recording a choice for `id` sets that entry, leaves every other entry
      alone, adds no key other than `id`, and keeps the sheet consistent. */
  lemma ChooseEffect(m: Answers, id: int, c: Choice)
    ensures Get(Set(m, id, Chosen(id, c)), id) == Some(Chosen(id, c))
    ensures forall j :: j != id ==> Get(Set(m, id, Chosen(id, c)), j) == Get(m, j)
    ensures Keys(Set(m, id, Chosen(id, c))) == Keys(m) + {id}
    ensures Consistent(m) ==> Consistent(Set(m, id, Chosen(id, c)))
  {
    SetKeys(m, id, Chosen(id, c));
    SetGet(m, id, Chosen(id, c), id);
    forall j | j != id ensures Get(Set(m, id, Chosen(id, c)), j) == Get(m, j) {
      SetGet(m, id, Chosen(id, c), j);
    }
    if Consistent(m) { ChooseConsistent(m, id, c); }
  }

  lemma ChooseConsistent(m: Answers, id: int, c: Choice)
    requires Consistent(m)
    ensures Consistent(Set(m, id, Chosen(id, c)))
  {
    var r := Set(m, id, Chosen(id, c));
    SetDistinct(m, id, Chosen(id, c));
    forall i | 0 <= i < |r|
      ensures r[i].1.questionId == r[i].0 && (r[i].1.isAnswered <==> r[i].1.selectedOption.Some?)
    {
      if i < |m| && m[i].0 != id {
        assert r[i] == m[i];
      } else if i < |m| {
        assert r[i].0 == id;
        GetAt(r, i);
        SetGet(m, id, Chosen(id, c), id);
      } else {
        assert r[i] == (id, Chosen(id, c));
      }
    }
  }

  // ---------------------------------------------------------------------
  // The submit payload and the answered counter
  // ---------------------------------------------------------------------

  /** `Array.from(userAnswers.values()).filter(a => a.selectedOption !== null)
      .map(...)`: the answered records in map order. */
  function Payload(m: Answers): (p: seq<AnswerPayload>)
    ensures |p| <= |m|
    ensures Consistent(m) ==> |p| == AnsweredCount(m)
  {
    if |m| == 0 then []
    else
      ConsistentTail(m);
      var a := m[0].1;
      (if a.selectedOption.Some? then [AnswerPayload(a.questionId, a.selectedOption.value)] else [])
      + Payload(m[1..])
  }

  /** The number of records with `isAnswered` set. */
  function AnsweredCount(m: Answers): nat {
    if |m| == 0 then 0
    else (if m[0].1.isAnswered then 1 else 0) + AnsweredCount(m[1..])
  }

  /** `getAnsweredCount`: walks the map's values and counts answered ones.
      On a consistent sheet the count is the size of the submit payload. */
  method GetAnsweredCount(m: Answers) returns (count: nat)
    ensures count == AnsweredCount(m)
    ensures Consistent(m) ==> count == |Payload(m)|
  {
    count := 0;
    var i := |m|;
    while i > 0
      invariant 0 <= i <= |m|
      invariant count == AnsweredCount(m[i..])
    {
      i := i - 1;
      assert m[i..][1..] == m[i + 1..];
      if m[i].1.isAnswered {
        count := count + 1;
      }
    }
    assert m[0..] == m;
  }

  /** Dropping the first entry of a consistent sheet leaves a consistent sheet. */
  lemma ConsistentTail(m: Answers)
    requires |m| > 0
    ensures Consistent(m) ==> Consistent(m[1..])
  {
    if Consistent(m) {
      forall i | 0 <= i < |m[1..]|
        ensures m[1..][i].1.questionId == m[1..][i].0
                && (m[1..][i].1.isAnswered <==> m[1..][i].1.selectedOption.Some?)
      {
        assert m[1..][i] == m[i + 1];
      }
    }
  }

  /** An option for question `id` is in the payload exactly when the sheet
      holds that option for `id`. */
  lemma {:induction false} PayloadMembership(m: Answers, id: int, c: Choice)
    requires Consistent(m)
    ensures AnswerPayload(id, c) in Payload(m) <==> Get(m, id) == Some(Chosen(id, c))
  {
    if |m| > 0 {
      var a := m[0].1;
      ConsistentTail(m);
      PayloadMembership(m[1..], id, c);
      if m[0].0 == id {
        forall j | 0 <= j < |m[1..]| ensures m[1..][j].0 != id {
          assert m[1..][j] == m[j + 1];
        }
        assert id !in Keys(m[1..]);
        assert Get(m[1..], id).None?;
      }
    }
  }

  // ---------------------------------------------------------------------
  // The local score
  // ---------------------------------------------------------------------

  /** The stored option for `q` equals its correct option
      (`userAnswer?.selectedOption === question.correct_option`). */
  predicate AnsweredCorrectly(q: Question, m: Answers) {
    match Get(m, q.id)
    case Some(a) => a.selectedOption == Some(q.correctOption)
    case None => false
  }

  /** The questions answered correctly, in question order. */
  function CorrectQuestions(qs: seq<Question>, m: Answers): (r: seq<Question>)
    ensures |r| <= |qs|
    ensures forall q :: q in r ==> q in qs && AnsweredCorrectly(q, m)
    ensures forall q :: q in qs && AnsweredCorrectly(q, m) ==> q in r
  {
    if |qs| == 0 then []
    else
      var rest := CorrectQuestions(qs[1..], m);
      assert forall q :: q in qs ==> q == qs[0] || q in qs[1..];
      if AnsweredCorrectly(qs[0], m) then [qs[0]] + rest else rest
  }

  function SumMarks(qs: seq<Question>): int {
    if |qs| == 0 then 0 else qs[0].marks + SumMarks(qs[1..])
  }

  predicate NonNegativeMarks(qs: seq<Question>) {
    forall i :: 0 <= i < |qs| ==> qs[i].marks >= 0
  }

  /** The result computed in `submitTest`: correct answers counted once per
      question, marks of correctly answered questions summed. */
  function ComputeScore(qs: seq<Question>, m: Answers): (s: Score)
    ensures 0 <= s.correctAnswers <= |qs|
    ensures NonNegativeMarks(qs) ==> 0 <= s.totalMarks <= SumMarks(qs)
  {
    if |qs| == 0 then Score(0, 0)
    else
      var rest := ComputeScore(qs[1..], m);
      assert NonNegativeMarks(qs) ==> NonNegativeMarks(qs[1..]) by {
        if NonNegativeMarks(qs) {
          forall i | 0 <= i < |qs[1..]| ensures qs[1..][i].marks >= 0 {
            assert qs[1..][i] == qs[i + 1];
          }
        }
      }
      if AnsweredCorrectly(qs[0], m) then Score(rest.correctAnswers + 1, rest.totalMarks + qs[0].marks)
      else rest
  }

  /** The score is the count and the mark total of the correctly answered
      questions. */
  lemma {:induction false} ScoreIsCorrectQuestions(qs: seq<Question>, m: Answers)
    ensures ComputeScore(qs, m).correctAnswers == |CorrectQuestions(qs, m)|
    ensures ComputeScore(qs, m).totalMarks == SumMarks(CorrectQuestions(qs, m))
  {
    if |qs| > 0 {
      ScoreIsCorrectQuestions(qs[1..], m);
      var rest := CorrectQuestions(qs[1..], m);
      if AnsweredCorrectly(qs[0], m) {
        assert ([qs[0]] + rest)[1..] == rest;
      }
    }
  }

  /** Scoring a test split in two parts adds the two parts' scores. */
  lemma {:induction false} ScoreAdditive(a: seq<Question>, b: seq<Question>, m: Answers)
    ensures ComputeScore(a + b, m).correctAnswers
            == ComputeScore(a, m).correctAnswers + ComputeScore(b, m).correctAnswers
    ensures ComputeScore(a + b, m).totalMarks
            == ComputeScore(a, m).totalMarks + ComputeScore(b, m).totalMarks
  {
    if |a| > 0 {
      assert (a + b)[1..] == a[1..] + b;
      ScoreAdditive(a[1..], b, m);
    } else {
      assert a + b == b;
    }
  }

  /** The loop of `submitTest` that tallies the result, question by question. */
  method TallyScore(qs: seq<Question>, m: Answers) returns (correctAnswers: int, totalMarks: int)
    ensures Score(correctAnswers, totalMarks) == ComputeScore(qs, m)
    ensures correctAnswers == |CorrectQuestions(qs, m)|
  {
    correctAnswers, totalMarks := 0, 0;
    var i := 0;
    while i < |qs|
      invariant 0 <= i <= |qs|
      invariant Score(correctAnswers, totalMarks) == ComputeScore(qs[..i], m)
      decreases |qs| - i
    {
      ScoreAdditive(qs[..i], [qs[i]], m);
      assert qs[..i + 1] == qs[..i] + [qs[i]];
      if AnsweredCorrectly(qs[i], m) {
        correctAnswers := correctAnswers + 1;
        totalMarks := totalMarks + qs[i].marks;
      }
      i := i + 1;
    }
    assert qs[..|qs|] == qs;
    ScoreIsCorrectQuestions(qs, m);
  }

  /** Marks 1, 2 and 3 with the first and third answered correctly and the
      second answered wrongly score 2 correct answers and 4 marks. */
  lemma ScoreExample()
    ensures
      var qs := [Question(1, A, 1), Question(2, B, 2), Question(3, C, 3)];
      var m := [(1, Chosen(1, A)), (2, Chosen(2, D)), (3, Chosen(3, C))];
      ComputeScore(qs, m) == Score(2, 4)
  {
    var qs := [Question(1, A, 1), Question(2, B, 2), Question(3, C, 3)];
    var m := [(1, Chosen(1, A)), (2, Chosen(2, D)), (3, Chosen(3, C))];
    assert AnsweredCorrectly(qs[0], m);
    assert !AnsweredCorrectly(qs[1], m);
    assert AnsweredCorrectly(qs[2], m);
    assert qs[1..][1..] == [qs[2]];
  }
}
