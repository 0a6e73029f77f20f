/** The quiz session: the record `quiz_state = {active, topic, index, score}` and the two
    handlers that update it, `start_quiz` and `answer_quiz`. `Start` and `Answer` say, as
    functions of the old state, what each handler leaves behind and replies; the class
    `QuizSession` updates its fields the way the handlers do and is proved to match them. */
module Quiz {
  import opened Common
  import opened Text
  import opened QuizText

  /** The fields of `quiz_state`; `topic` is `None` until a quiz has been started. */
  datatype QuizState = QuizState(active: bool, topic: Option<string>, index: nat, score: nat)

  /** `quiz_state` when the application starts. */
  const Initial: QuizState := QuizState(false, None, 0, 0)

  /** The topic `start_quiz` uses when the request names none. */
  const DefaultTopic: string := "number_systems"

  /** The verdict on one answer; the wording and emoji of the reply are not modelled. */
  datatype Feedback = Correct(explain: string) | Incorrect(correctAnswer: string, explain: string)

  /** The replies of the two handlers. */
  datatype QuizReply =
    | TopicUnavailable                                     // "Sorry, that quiz topic is not available."
    | Started(question: seq<string>)                       // "Quiz started!" and the first question
    | NoActiveQuiz                                         // "No quiz is active. ..."
    | InvalidAnswer                                        // "Please reply with 1, 2, 3, or 4."
    | Graded(feedback: Feedback, next: seq<string>)        // verdict and the next question
    | Finished(feedback: Feedback, score: nat, total: nat) // verdict and "Score: score/total"
    | ServerError                                          // an uncaught IndexError (HTTP 500)

  /** The state after a handler, and its reply. */
  datatype Turn = Turn(state: QuizState, reply: QuizReply)

  /** The invariant of the session against a fixed quiz table: the counters satisfy
      `score <= index <= len(questions)`; a session that never started is all zero; an active
      quiz still has a question to ask, unless its topic has no questions at all; a quiz that
      is no longer active ended after its last question. */
  predicate Valid(quiz: QuizTable, s: QuizState) {
    && s.score <= s.index
    && (s.topic.None? ==> !s.active && s.index == 0 && s.score == 0)
    && (s.topic.Some? ==>
          && s.topic.value in quiz
          && s.index <= |quiz[s.topic.value]|
          && (s.active ==> s.index < |quiz[s.topic.value]| || |quiz[s.topic.value]| == 0)
          && (!s.active ==> s.index == |quiz[s.topic.value]|))
  }

  /** The record the application starts with satisfies the invariant for every quiz table. */
  lemma InitialValid(quiz: QuizTable)
    ensures Valid(quiz, Initial)
  {
  }

  /** The accepted answers "1" to "4", as 0-based choice positions: `int(ans) - 1`. */
  function ParseAnswer(ans: string): (r: Option<nat>)
    ensures r.Some? <==> ans in {"1", "2", "3", "4"}
    ensures r.Some? ==> r.value < 4 && ans == NatToString(r.value + 1)
  {
    if ans == "1" then Some(0)
    else if ans == "2" then Some(1)
    else if ans == "3" then Some(2)
    else if ans == "4" then Some(3)
    else None
  }

  /** Python's `s[i]`: a negative `i` counts from the end; out of range raises IndexError.
      Within range, Python's index is `i` taken modulo the length. */
  function PyIndex(s: seq<string>, i: int): (r: Option<string>)
    ensures r.Some? <==> -|s| <= i < |s|
    ensures r.Some? ==> r.value in s && r.value == s[i % |s|]
  {
    if 0 <= i < |s| then Some(s[i])
    else if -|s| <= i < 0 then Some(s[|s| + i])
    else None
  }

  /** `start_quiz(topic)`; `requested` is `None` when the request names no topic. */
  function Start(quiz: QuizTable, s: QuizState, requested: Option<string>): (t: Turn)
    requires Valid(quiz, s)
    ensures Valid(quiz, t.state)
    ensures requested.GetOr(DefaultTopic) !in quiz ==> t == Turn(s, TopicUnavailable)
    ensures requested.GetOr(DefaultTopic) in quiz ==>
              && t.state == QuizState(true, Some(requested.GetOr(DefaultTopic)), 0, 0)
              && (quiz[requested.GetOr(DefaultTopic)] == [] ==> t.reply == ServerError)
              && (quiz[requested.GetOr(DefaultTopic)] != [] ==>
                    t.reply == Started(QuestionLines(quiz[requested.GetOr(DefaultTopic)][0], 1, |quiz[requested.GetOr(DefaultTopic)]|)))
  {
    var topic := requested.GetOr(DefaultTopic);
    if topic !in quiz then Turn(s, TopicUnavailable)
    else
      var started := QuizState(true, Some(topic), 0, 0);
      var questions := quiz[topic];
      if |questions| == 0 then Turn(started, ServerError)
      else Turn(started, Started(QuestionLines(questions[0], 1, |questions|)))
  }

  /** Whether `answer` is graded correct for question `q`. */
  predicate IsCorrect(q: Question, answer: string) {
    ParseAnswer(Strip(answer)).Some? && ParseAnswer(Strip(answer)).value == q.answerIndex
  }

  /** `answer_quiz(answer)`. */
  function Answer(quiz: QuizTable, s: QuizState, answer: string): (t: Turn)
    requires Valid(quiz, s)
    ensures Valid(quiz, t.state)
    // Rejected answers: nothing changes.
    ensures !s.active ==> t == Turn(s, NoActiveQuiz)
    ensures s.active && ParseAnswer(Strip(answer)).None? ==> t == Turn(s, InvalidAnswer)
    // A crash (IndexError) leaves the state as it was.
    ensures t.reply == ServerError ==> t.state == s
    // A graded answer: one more question done, one more point exactly when it was right,
    // and the quiz ends exactly when the last question has been answered.
    ensures t.reply.Graded? || t.reply.Finished? ==>
              && s.active && s.topic.Some?
              && t.state.topic == s.topic
              && t.state.index == s.index + 1
              && t.state.score == s.score + (if IsCorrect(quiz[s.topic.value][s.index], answer) then 1 else 0)
              && (t.state.active <==> t.state.index < |quiz[s.topic.value]|)
    ensures t.reply.Finished? ==>
              t.reply.score == t.state.score && t.reply.total == |quiz[s.topic.value]| == t.state.index
    ensures t.reply.Graded? ==>
              && s.topic.Some? && s.topic.value in quiz && t.state.active
              && t.state.index < |quiz[s.topic.value]|
              && t.reply.next == QuestionLines(quiz[s.topic.value][t.state.index], t.state.index + 1, |quiz[s.topic.value]|)
    // The verdict: right, with the explanation; or wrong, with the right choice as well.
    ensures t.reply.Graded? || t.reply.Finished? ==>
              var q := quiz[s.topic.value][s.index];
              if IsCorrect(q, answer) then t.reply.feedback == Correct(q.explain)
              else PyIndex(q.choices, q.answerIndex).Some?
                   && t.reply.feedback == Incorrect(PyIndex(q.choices, q.answerIndex).value, q.explain)
    // Every valid answer to an active quiz is graded, unless the topic has no questions or
    // the answer is wrong and the right choice cannot be looked up.
    ensures s.active && ParseAnswer(Strip(answer)).Some? ==>
              && (t.reply.Graded? || t.reply.Finished? || t.reply == ServerError)
              && (t.reply == ServerError <==>
                    || s.index >= |quiz[s.topic.value]|
                    || (!IsCorrect(quiz[s.topic.value][s.index], answer)
                        && PyIndex(quiz[s.topic.value][s.index].choices, quiz[s.topic.value][s.index].answerIndex).None?))
  {
    if !s.active then Turn(s, NoActiveQuiz)
    else
      var choice := ParseAnswer(Strip(answer));
      if choice.None? then Turn(s, InvalidAnswer)
      else
        var questions := quiz[s.topic.value];
        if s.index >= |questions| then Turn(s, ServerError)
        else
          var q := questions[s.index];
          var correctText := PyIndex(q.choices, q.answerIndex);
          if choice.value != q.answerIndex && correctText.None? then Turn(s, ServerError)
          else
            var feedback := if choice.value == q.answerIndex then Correct(q.explain)
                            else Incorrect(correctText.value, q.explain);
            var score := if choice.value == q.answerIndex then s.score + 1 else s.score;
            var index := s.index + 1;
            if index >= |questions| then
              Turn(QuizState(false, s.topic, index, score), Finished(feedback, score, |questions|))
            else
              Turn(QuizState(true, s.topic, index, score),
                   Graded(feedback, QuestionLines(questions[index], index + 1, |questions|)))
  }

  // ---------------------------------------------------------------------------
  // A whole quiz run.
  // ---------------------------------------------------------------------------

  /** The state after answering `answers` one after the other. */
  function AnswerAll(quiz: QuizTable, s: QuizState, answers: seq<string>): QuizState
    requires Valid(quiz, s)
    decreases |answers|
  {
    if answers == [] then s else AnswerAll(quiz, Answer(quiz, s, answers[0]).state, answers[1..])
  }

  /** How many of `answers` are right for `questions`, answer `k` for question `k`. */
  function CountCorrect(questions: seq<Question>, answers: seq<string>): nat
    requires |answers| <= |questions|
  {
    if answers == [] then 0
    else (if IsCorrect(questions[0], answers[0]) then 1 else 0) + CountCorrect(questions[1..], answers[1..])
  }

  /** A question Python can always grade: when the answer is wrong it can look up the right
      choice, `choices[answer_index]`. */
  predicate Gradable(q: Question) {
    -|q.choices| <= q.answerIndex < |q.choices|
  }

  /** From question `k` of an active quiz on, when every question of the topic is `Gradable`
      (its `answer_index` lies in `-len(choices)` to `len(choices) - 1`), answering every
      remaining question with one of "1" to "4" ends the quiz after the last question, with one
      point for each right answer. Without that, a wrong answer to a question whose right choice
      cannot be looked up raises IndexError and the quiz stays where it was. */
  lemma {:induction false} AnswerRestFinishes(quiz: QuizTable, s: QuizState, answers: seq<string>)
    requires Valid(quiz, s) && s.active && s.topic.Some?
    requires |quiz[s.topic.value]| > 0
    requires s.index + |answers| == |quiz[s.topic.value]|
    requires forall k :: 0 <= k < |answers| ==> ParseAnswer(Strip(answers[k])).Some?
    requires forall q :: q in quiz[s.topic.value] ==> Gradable(q)
    ensures AnswerAll(quiz, s, answers) ==
              QuizState(false, s.topic, |quiz[s.topic.value]|,
                        s.score + CountCorrect(quiz[s.topic.value][s.index..], answers))
    decreases |answers|
  {
    var questions := quiz[s.topic.value];
    var t := Answer(quiz, s, answers[0]);
    assert questions[s.index] in questions;
    assert t.reply.Graded? || t.reply.Finished?;
    assert questions[s.index..][0] == questions[s.index];
    if |answers| > 1 {
      assert questions[s.index..][1..] == questions[s.index + 1..];
      AnswerRestFinishes(quiz, t.state, answers[1..]);
    } else {
      assert CountCorrect(questions[s.index..][1..], answers[1..]) == 0;
    }
  }

  /** Starting a quiz whose `N` questions can all be graded and answering it `N` times with
      "1" to "4" leaves the quiz finished after question `N`, with the number of right answers
      as its score. */
  lemma QuizRunFinishes(quiz: QuizTable, s: QuizState, topic: string, answers: seq<string>)
    requires Valid(quiz, s)
    requires topic in quiz && |quiz[topic]| > 0 && |answers| == |quiz[topic]|
    requires forall k :: 0 <= k < |answers| ==> ParseAnswer(Strip(answers[k])).Some?
    requires forall q :: q in quiz[topic] ==> Gradable(q)
    ensures AnswerAll(quiz, Start(quiz, s, Some(topic)).state, answers) ==
              QuizState(false, Some(topic), |quiz[topic]|, CountCorrect(quiz[topic], answers))
  {
    var started := Start(quiz, s, Some(topic)).state;
    AnswerRestFinishes(quiz, started, answers);
    assert quiz[topic][0..] == quiz[topic];
  }

  /** Which answers are right: the answer "k" (1 to 4) exactly when `answer_index` is `k - 1`. */
  lemma CorrectAnswerIsNumberedChoice(q: Question, k: nat)
    requires 1 <= k <= 4
    ensures IsCorrect(q, NatToString(k)) <==> q.answerIndex == k - 1
  {
    assert NatToString(k) == [DigitChar(k)];
    assert Strip(NatToString(k)) == NatToString(k);
  }

  /** A question whose `answer_index` is negative can never be answered right: the answer
      is compared with `int(ans) - 1`, which is at least 0. Python still reports
      `choices[answer_index]`, counted from the end, as the right answer to a wrong one. */
  lemma NegativeAnswerIndexNeverCorrect(q: Question, answer: string)
    requires q.answerIndex < 0
    ensures !IsCorrect(q, answer)
  {
  }

  /** A one-question topic whose `answer_index` is -1: the last choice "d" is printed as
      "4. d", yet the answer "4" is graded wrong and "d" is reported as the right answer. */
  lemma NegativeAnswerIndexRun()
    ensures
      var q := Question("q", ["a", "b", "c", "d"], -1, "e");
      var quiz: QuizTable := map["t" := [q]];
      var s := QuizState(true, Some("t"), 0, 0);
      && QuestionLines(q, 1, 1)[5] == Numbered(4, "d")
      && Answer(quiz, s, "4") == Turn(QuizState(false, Some("t"), 1, 0), Finished(Incorrect("d", "e"), 0, 1))
  {
    var q := Question("q", ["a", "b", "c", "d"], -1, "e");
    QuestionLinesShape(q, 1, 1);
    assert Strip("4") == "4";
  }

  /** A two-question quiz "basics": answering the first question right and the second wrong
      grades 1 out of 2, shows the second question after the first answer, and ends the quiz. */
  lemma TwoQuestionRun()
    ensures
      var q1 := Question("q1", ["a", "b", "c", "d"], 0, "e1");
      var q2 := Question("q2", ["a", "b", "c", "d"], 1, "e2");
      var quiz: QuizTable := map["basics" := [q1, q2]];
      var t1 := Start(quiz, Initial, Some("basics"));
      var t2 := Answer(quiz, t1.state, "1");
      var t3 := Answer(quiz, t2.state, " 1 ");
      && t1.reply == Started(QuestionLines(q1, 1, 2))
      && t2 == Turn(QuizState(true, Some("basics"), 1, 1), Graded(Correct("e1"), QuestionLines(q2, 2, 2)))
      && t3 == Turn(QuizState(false, Some("basics"), 2, 1), Finished(Incorrect("b", "e2"), 1, 2))
  {
    var q1 := Question("q1", ["a", "b", "c", "d"], 0, "e1");
    var q2 := Question("q2", ["a", "b", "c", "d"], 1, "e2");
    var quiz: QuizTable := map["basics" := [q1, q2]];
    assert Valid(quiz, Initial);
    assert Strip("1") == "1";
    assert TrimStart(" 1 ") == "1 " by {
      assert " 1 "[1..] == "1 ";
    }
    assert TrimEnd("1 ") == "1" by {
      assert "1 "[..1] == "1";
    }
  }

  // ---------------------------------------------------------------------------
  // The session object.
  // ---------------------------------------------------------------------------

  /** The global `quiz_state` record of one session, with `start_quiz` and `answer_quiz`
      as methods; the quiz table is passed to each call. */
  class QuizSession {
    var active: bool
    var topic: Option<string>
    var index: nat
    var score: nat

    /** The fields as a value. */
    function State(): QuizState
      reads this
    {
      QuizState(active, topic, index, score)
    }

    /** The record as the application initialises it. */
    constructor ()
      ensures State() == Initial
    {
      active, topic, index, score := false, None, 0, 0;
    }

    /** `start_quiz`. */
    method StartQuiz(quiz: QuizTable, requested: Option<string>) returns (reply: QuizReply)
      requires Valid(quiz, State())
      modifies this
      ensures Turn(State(), reply) == Start(quiz, old(State()), requested)
    {
      var t := requested.GetOr(DefaultTopic);
      if t !in quiz {
        return TopicUnavailable;
      }
      active := true;
      topic := Some(t);
      index := 0;
      score := 0;
      var questions := quiz[t];
      if |questions| == 0 {
        return ServerError;
      }
      var lines := FormatQuestion(questions[0], 1, |questions|);
      return Started(lines);
    }

    /** `answer_quiz`. */
    method AnswerQuiz(quiz: QuizTable, answer: string) returns (reply: QuizReply)
      requires Valid(quiz, State())
      modifies this
      ensures Turn(State(), reply) == Answer(quiz, old(State()), answer)
    {
      if !active {
        return NoActiveQuiz;
      }
      var ans := Strip(answer);
      var choice := ParseAnswer(ans);
      if choice.None? {
        return InvalidAnswer;
      }
      var questions := quiz[topic.value];
      if index >= |questions| {
        return ServerError;
      }
      var q := questions[index];
      var feedback: Feedback;
      if choice.value == q.answerIndex {
        score := score + 1;
        feedback := Correct(q.explain);
      } else {
        var correctText := PyIndex(q.choices, q.answerIndex);
        if correctText.None? {
          return ServerError;
        }
        feedback := Incorrect(correctText.value, q.explain);
      }
      index := index + 1;
      if index >= |questions| {
        active := false;
        return Finished(feedback, score, |questions|);
      }
      var lines := FormatQuestion(questions[index], index + 1, |questions|);
      return Graded(feedback, lines);
    }
  }
}
