/** Quiz storage and grading: a submission is checked, an attempt header is
    saved, every answer is validated and graded in turn, and the aggregates
    and the answer rows are saved at the end. The two saves make grading
    not all-or-nothing: an answer rejected in the loop leaves the header
    stored with zero counts and no answer rows. */
module QuizRepositories {
  import opened Common
  import opened Entities

  /** `UserAnswerDto`. */
  datatype UserAnswer = UserAnswer(questionId: int, selectedOptionId: int)

  /** `SubmitQuizDto`; `None` for `submissions` stands for a null list. */
  datatype SubmitQuizDto = SubmitQuizDto(quizId: int, submissions: Option<seq<UserAnswer>>)

  /** The exceptions `SubmitQuiz` throws. */
  datatype QuizError =
    | SubmissionMissing                                  // ArgumentNullException
    | QuizNotFound(quizId: int)                          // ArgumentException
    | NoQuestions                                        // InvalidOperationException
    | NoAnswers                                          // ArgumentException
    | QuestionNotFound(questionId: int)                  // ArgumentException
    | OptionNotInQuestion(optionId: int, questionId: int) // ArgumentException

  /** `SubmitQuizResponseDto`. */
  datatype SubmitResponse = SubmitResponse(
    message: string,
    totalScore: int,
    totalQuestions: int,
    correctAnswers: int,
    incorrectAnswers: int,
    isPassed: bool,
    answers: seq<UserAnswer>)

  datatype SubmitOutcome = Submitted(response: SubmitResponse) | Rejected(error: QuizError)

  /** The quiz tables, and the next identity values of the attempts and
      quizzes tables. */
  datatype QuizTables = QuizTables(
    quizzes: seq<Quiz>,
    questions: seq<Question>,
    options: seq<QuestionOption>,
    attempts: seq<QuizAttempt>,
    submissions: seq<QuizSubmission>,
    nextAttemptId: int,
    nextQuizId: int)

  const PassMark: real := 60.0

  function PassMessage(isPassed: bool): string {
    if isPassed then "Congratulations! You passed the quiz." else "You did not pass the quiz. Keep practicing!"
  }

  // ---- Grading of one answer ----

  /** Why one answer is rejected, if it is: its question is looked up by id
      alone (any quiz), then the option must belong to that question. */
  function AnswerError(questions: seq<Question>, options: seq<QuestionOption>, a: UserAnswer): (r: Option<QuizError>)
    ensures r.None? <==> FindQuestion(questions, a.questionId).Some? && OptionExists(options, a.selectedOptionId, a.questionId)
    ensures r.Some? ==> r.value.QuestionNotFound? || r.value.OptionNotInQuestion?
  {
    if FindQuestion(questions, a.questionId).None? then Some(QuestionNotFound(a.questionId))
    else if !OptionExists(options, a.selectedOptionId, a.questionId) then Some(OptionNotInQuestion(a.selectedOptionId, a.questionId))
    else None
  }

  predicate IsCorrect(questions: seq<Question>, a: UserAnswer) {
    match FindQuestion(questions, a.questionId)
    case None => false
    case Some(q) => a.selectedOptionId == q.correctOptionId
  }

  /** The number of correct answers among those submitted, counted per
      answer (a repeated answer counts each time). */
  function CorrectCount(questions: seq<Question>, answers: seq<UserAnswer>): (n: nat)
    ensures n <= |answers|
    decreases |answers|
  {
    if answers == [] then 0
    else CorrectCount(questions, answers[..|answers| - 1]) + (if IsCorrect(questions, answers[|answers| - 1]) then 1 else 0)
  }

  /** The error of the first rejected answer, in submission order. */
  function FirstError(questions: seq<Question>, options: seq<QuestionOption>, answers: seq<UserAnswer>): (r: Option<QuizError>)
    ensures r.None? <==> forall i :: 0 <= i < |answers| ==> AnswerError(questions, options, answers[i]).None?
    ensures r.Some? ==> exists i :: 0 <= i < |answers| && r == AnswerError(questions, options, answers[i])
                                    && forall j :: 0 <= j < i ==> AnswerError(questions, options, answers[j]).None?
  {
    match FindFirst(answers, (a: UserAnswer) => AnswerError(questions, options, a).Some?)
    case None => None
    case Some(i) => AnswerError(questions, options, answers[i])
  }

  /** The error at the first failing index is the first error. */
  lemma FirstErrorAt(questions: seq<Question>, options: seq<QuestionOption>, answers: seq<UserAnswer>, i: int)
    requires 0 <= i < |answers| && AnswerError(questions, options, answers[i]).Some?
    requires forall j :: 0 <= j < i ==> AnswerError(questions, options, answers[j]).None?
    ensures FirstError(questions, options, answers) == AnswerError(questions, options, answers[i])
  {
    var k := FindFirst(answers, (a: UserAnswer) => AnswerError(questions, options, a).Some?);
    assert k.Some?;
    assert k.value == i;
  }

  // ---- Aggregates ----

  /** `TotalScore`: the correct answers as a percentage of the quiz's
      question count, exactly. */
  function ExactScore(correct: nat, total: nat): real
    requires total > 0
  {
    (correct as real / total as real) * 100.0
  }

  lemma ScoreTimesTotal(correct: nat, total: nat)
    requires total > 0
    ensures ExactScore(correct, total) * total as real == (100 * correct) as real
  {
    var x := correct as real / total as real;
    assert x * total as real == correct as real;
  }

  lemma ScaleLess(a: real, b: real, k: real)
    requires k > 0.0
    ensures a < b <==> a * k < b * k
  {
    if a < b { assert (b - a) * k > 0.0; }
    if a * k < b * k { assert (b - a) * k > 0.0; }
  }

  lemma CastMul(a: int, b: int)
    ensures (a * b) as real == a as real * b as real
  {
  }

  /** Passing at 60 percent is the integer condition `100 c >= 60 t`. */
  lemma PassedIff(correct: nat, total: nat)
    requires total > 0
    ensures ExactScore(correct, total) >= PassMark <==> 100 * correct >= 60 * total
  {
    ScoreTimesTotal(correct, total);
    ScaleLess(ExactScore(correct, total), PassMark, total as real);
  }

  /** The response's `(int)` cast of the non-negative score is its floor,
      which is the integer percentage `(100 c) / t`. */
  lemma TruncatedScore(correct: nat, total: nat)
    requires total > 0
    ensures ExactScore(correct, total).Floor == (100 * correct) / total
  {
    var s := ExactScore(correct, total);
    var n := 100 * correct;
    var q := n / total;
    var t := total as real;
    assert q * total <= n < q * total + total;
    assert (q + 1) * total == q * total + total;
    CastMul(q, total);
    CastMul(q + 1, total);
    ScoreTimesTotal(correct, total);
    calc {
      q as real * t;
      == (q * total) as real;
      <= n as real;
      == s * t;
    }
    calc {
      s * t;
      == n as real;
      < ((q + 1) * total) as real;
      == (q + 1) as real * t;
    }
    ScaleLess(s, (q + 1) as real, t);
    ScaleLess(s, q as real, t);
    assert q as real <= s < (q + 1) as real;
  }

  // ---- The whole call ----

  /** The checks made before the attempt header is saved. */
  function Precheck(t: QuizTables, dto: Option<SubmitQuizDto>): (r: Option<QuizError>)
    ensures r.None? <==>
      && dto.Some?
      && QuizById(t.quizzes, dto.value.quizId).Some?
      && |QuizQuestions(t.questions, dto.value.quizId)| > 0
      && dto.value.submissions.Some? && dto.value.submissions.value != []
    ensures r.Some? ==> !(r.value.QuestionNotFound? || r.value.OptionNotInQuestion?)
  {
    if dto.None? then Some(SubmissionMissing)
    else if QuizById(t.quizzes, dto.value.quizId).None? then Some(QuizNotFound(dto.value.quizId))
    else if |QuizQuestions(t.questions, dto.value.quizId)| == 0 then Some(NoQuestions)
    else if dto.value.submissions.None? || dto.value.submissions.value == [] then Some(NoAnswers)
    else None
  }

  /** The answer rows saved with the aggregates. The entity sets no `Score`,
      so the rows carry 0 there. */
  function AnswerRows(userId: int, quizId: int, attemptId: int, now: Time, answers: seq<UserAnswer>): (r: seq<QuizSubmission>)
    ensures |r| == |answers|
    ensures forall i :: 0 <= i < |answers| ==>
      r[i] == QuizSubmission(userId, quizId, answers[i].questionId, Some(answers[i].selectedOptionId), attemptId, 0, now)
  {
    seq(|answers|, i requires 0 <= i < |answers| =>
      QuizSubmission(userId, quizId, answers[i].questionId, Some(answers[i].selectedOptionId), attemptId, 0, now))
  }

  /** The attempt as first saved: the quiz's question count and nothing else. */
  function Header(t: QuizTables, userId: int, quizId: int): QuizAttempt {
    QuizAttempt(t.nextAttemptId, userId, quizId, |QuizQuestions(t.questions, quizId)|, 0, 0, 0.0, false)
  }

  /** The attempt once all answers are graded. */
  function Graded(header: QuizAttempt, correct: nat, answered: nat): QuizAttempt
    requires header.totalQuestions > 0
  {
    var score := ExactScore(correct, header.totalQuestions);
    header.(correctAnswers := correct, incorrectAnswers := answered - correct,
            totalScore := score, isPassed := score >= PassMark)
  }

  function Response(attempt: QuizAttempt, answers: seq<UserAnswer>): SubmitResponse {
    SubmitResponse(PassMessage(attempt.isPassed), attempt.totalScore.Floor, attempt.totalQuestions,
                   attempt.correctAnswers, attempt.incorrectAnswers, attempt.isPassed, answers)
  }

  /** From the header save on: validate and grade every answer, then save. */
  function GradeAnswers(t: QuizTables, userId: int, quizId: int, answers: seq<UserAnswer>, now: Time): (r: (SubmitOutcome, QuizTables))
    requires |QuizQuestions(t.questions, quizId)| > 0
  {
    var header := Header(t, userId, quizId);
    var saved := t.(attempts := t.attempts + [header], nextAttemptId := t.nextAttemptId + 1);
    match FirstError(t.questions, t.options, answers)
    case Some(e) => (Rejected(e), saved)
    case None =>
      var graded := Graded(header, CorrectCount(t.questions, answers), |answers|);
      (Submitted(Response(graded, answers)),
       saved.(attempts := t.attempts + [graded], submissions := t.submissions + AnswerRows(userId, quizId, header.id, now, answers)))
  }

  /** `SubmitQuiz`: the outcome and the tables afterwards. */
  function Submit(t: QuizTables, dto: Option<SubmitQuizDto>, userId: int, now: Time): (r: (SubmitOutcome, QuizTables))
    ensures r.1.quizzes == t.quizzes && r.1.questions == t.questions && r.1.options == t.options
    ensures Precheck(t, dto).Some? ==> r == (Rejected(Precheck(t, dto).value), t)
    ensures r.0.Rejected? ==> r.1.submissions == t.submissions
    ensures r.0.Submitted? ==> |r.1.submissions| == |t.submissions| + |dto.value.submissions.value|
  {
    match Precheck(t, dto)
    case Some(e) => (Rejected(e), t)
    case None => GradeAnswers(t, userId, dto.value.quizId, dto.value.submissions.value, now)
  }

  /** A successful submission: the counters add up to the number of answers
      (not of questions), the answers are echoed in order, the quiz's
      question count is the denominator, the pass flag is `100 c >= 60 t`,
      the reported score is the integer percentage, and one graded attempt
      and one row per answer are stored. It happens exactly when the early
      checks and every answer pass. */
  lemma SubmittedMeans(t: QuizTables, dto: Option<SubmitQuizDto>, userId: int, now: Time)
    ensures Submit(t, dto, userId, now).0.Submitted? <==>
      Precheck(t, dto).None? && FirstError(t.questions, t.options, dto.value.submissions.value).None?
    ensures var (out, after) := Submit(t, dto, userId, now);
      out.Submitted? ==>
      var resp := out.response;
      && resp.answers == dto.value.submissions.value
      && resp.correctAnswers == CorrectCount(t.questions, resp.answers)
      && resp.correctAnswers + resp.incorrectAnswers == |resp.answers|
      && resp.totalQuestions == |QuizQuestions(t.questions, dto.value.quizId)| > 0
      && (resp.isPassed <==> 100 * resp.correctAnswers >= 60 * resp.totalQuestions)
      && resp.totalScore == (100 * resp.correctAnswers) / resp.totalQuestions
      && resp.message == PassMessage(resp.isPassed)
      && after.attempts == t.attempts + [QuizAttempt(t.nextAttemptId, userId, dto.value.quizId, resp.totalQuestions,
                                                     resp.correctAnswers, resp.incorrectAnswers,
                                                     ExactScore(resp.correctAnswers, resp.totalQuestions), resp.isPassed)]
      && after.submissions == t.submissions + AnswerRows(userId, dto.value.quizId, t.nextAttemptId, now, resp.answers)
  {
    if Precheck(t, dto).None? && FirstError(t.questions, t.options, dto.value.submissions.value).None? {
      var answers := dto.value.submissions.value;
      var total := |QuizQuestions(t.questions, dto.value.quizId)|;
      var c := CorrectCount(t.questions, answers);
      PassedIff(c, total);
      TruncatedScore(c, total);
    }
  }

  /** Not all-or-nothing: when the request passes the early checks but an
      answer is rejected, the zero-count, not-passed attempt header is
      already stored while no answer row is, and the error is that of the
      first bad answer. */
  lemma RejectedAnswerKeepsHeader(t: QuizTables, dto: Option<SubmitQuizDto>, userId: int, now: Time)
    requires Precheck(t, dto).None?
    requires exists a :: a in dto.value.submissions.value && AnswerError(t.questions, t.options, a).Some?
    ensures var (out, after) := Submit(t, dto, userId, now);
      && out == Rejected(FirstError(t.questions, t.options, dto.value.submissions.value).value)
      && after.attempts == t.attempts + [QuizAttempt(t.nextAttemptId, userId, dto.value.quizId,
                                                     |QuizQuestions(t.questions, dto.value.quizId)|, 0, 0, 0.0, false)]
      && after.nextAttemptId == t.nextAttemptId + 1
      && after.submissions == t.submissions
  {
    var a :| a in dto.value.submissions.value && AnswerError(t.questions, t.options, a).Some?;
    var answers := dto.value.submissions.value;
    var i :| 0 <= i < |answers| && answers[i] == a;
    assert FirstError(t.questions, t.options, answers).Some?;
  }

  /** Every answer of the prefix is accepted. */
  predicate AcceptedUpTo(questions: seq<Question>, options: seq<QuestionOption>, answers: seq<UserAnswer>, i: int)
    requires 0 <= i <= |answers|
  {
    forall j :: 0 <= j < i ==> AnswerError(questions, options, answers[j]).None?
  }

  /** `Submit` when the answer at index i is the first bad one. */
  lemma SubmitRejectedAt(t: QuizTables, dto: Option<SubmitQuizDto>, userId: int, now: Time, i: int)
    requires Precheck(t, dto).None?
    requires 0 <= i < |dto.value.submissions.value|
    requires AnswerError(t.questions, t.options, dto.value.submissions.value[i]).Some?
    requires AcceptedUpTo(t.questions, t.options, dto.value.submissions.value, i)
    ensures Submit(t, dto, userId, now)
         == (Rejected(AnswerError(t.questions, t.options, dto.value.submissions.value[i]).value),
             t.(attempts := t.attempts + [Header(t, userId, dto.value.quizId)], nextAttemptId := t.nextAttemptId + 1))
  {
    FirstErrorAt(t.questions, t.options, dto.value.submissions.value, i);
  }

  /** `Submit` when the early checks pass and some answer is rejected. */
  lemma SubmitRejectedLate(t: QuizTables, dto: Option<SubmitQuizDto>, userId: int, now: Time)
    requires Precheck(t, dto).None?
    requires FirstError(t.questions, t.options, dto.value.submissions.value).Some?
    ensures Submit(t, dto, userId, now)
         == (Rejected(FirstError(t.questions, t.options, dto.value.submissions.value).value),
             t.(attempts := t.attempts + [Header(t, userId, dto.value.quizId)], nextAttemptId := t.nextAttemptId + 1))
  {
  }

  /** `Submit` when every answer is accepted. */
  lemma SubmitAccepted(t: QuizTables, dto: Option<SubmitQuizDto>, userId: int, now: Time)
    requires Precheck(t, dto).None?
    requires FirstError(t.questions, t.options, dto.value.submissions.value).None?
    ensures var answers := dto.value.submissions.value;
      var graded := Graded(Header(t, userId, dto.value.quizId), CorrectCount(t.questions, answers), |answers|);
      Submit(t, dto, userId, now)
        == (Submitted(Response(graded, answers)),
            t.(attempts := t.attempts + [graded], nextAttemptId := t.nextAttemptId + 1,
               submissions := t.submissions + AnswerRows(userId, dto.value.quizId, t.nextAttemptId, now, answers)))
  {
  }

  // ---- Consequences ----

  /** Boundary cases of the score: 3 of 4 is 75 and passes, 2 of 4 is 50
      and fails, exactly 60 passes, and 2 of 3 is reported as 66. */
  lemma ScoreExamples()
    ensures ExactScore(3, 4).Floor == 75 && ExactScore(3, 4) >= PassMark
    ensures ExactScore(2, 4).Floor == 50 && ExactScore(2, 4) < PassMark
    ensures ExactScore(3, 5).Floor == 60 && ExactScore(3, 5) >= PassMark
    ensures ExactScore(2, 3).Floor == 66 && ExactScore(2, 3) >= PassMark
  {
    TruncatedScore(3, 4); PassedIff(3, 4);
    TruncatedScore(2, 4); PassedIff(2, 4);
    TruncatedScore(3, 5); PassedIff(3, 5);
    TruncatedScore(2, 3); PassedIff(2, 3);
  }

  function Repeat(a: UserAnswer, k: nat): (r: seq<UserAnswer>)
    ensures |r| == k && forall i :: 0 <= i < k ==> r[i] == a
  {
    seq(k, i => a)
  }

  /** The same accepted answer sent k times is accepted k times and
      counted k times when correct. */
  lemma {:induction false} RepeatedAnswerCounts(questions: seq<Question>, options: seq<QuestionOption>, a: UserAnswer, k: nat)
    requires AnswerError(questions, options, a).None?
    ensures FirstError(questions, options, Repeat(a, k)).None?
    ensures CorrectCount(questions, Repeat(a, k)) == if IsCorrect(questions, a) then k else 0
  {
    if k > 0 {
      RepeatedAnswerCounts(questions, options, a, k - 1);
      assert Repeat(a, k)[..k - 1] == Repeat(a, k - 1);
    }
  }

  /** Answers are counted per submission, not per question: sending one
      correct answer twice as many times as the quiz has questions is
      graded 200 percent and passes. */
  lemma RepeatedAnswerScoresTwoHundred(t: QuizTables, quizId: int, a: UserAnswer, userId: int, now: Time)
    requires QuizById(t.quizzes, quizId).Some? && |QuizQuestions(t.questions, quizId)| > 0
    requires AnswerError(t.questions, t.options, a).None? && IsCorrect(t.questions, a)
    ensures var n := |QuizQuestions(t.questions, quizId)|;
      var (out, _) := Submit(t, Some(SubmitQuizDto(quizId, Some(Repeat(a, 2 * n)))), userId, now);
      out.Submitted? && out.response.correctAnswers == 2 * n && out.response.totalScore == 200 && out.response.isPassed
  {
    var n := |QuizQuestions(t.questions, quizId)|;
    var dto := Some(SubmitQuizDto(quizId, Some(Repeat(a, 2 * n))));
    RepeatedAnswerCounts(t.questions, t.options, a, 2 * n);
    SubmittedMeans(t, dto, userId, now);
    assert 100 * (2 * n) == 200 * n;
    ExactQuotient(200, n);
  }

  lemma ExactQuotient(k: int, n: int)
    requires n > 0
    ensures (k * n) / n == k
  {
    var q, m := (k * n) / n, (k * n) % n;
    assert k * n == q * n + m && 0 <= m < n;
    MulSub(k, q, n);
    assert (k - q) * n == m;
    if k - q >= 1 {
      MulAtLeast(k - q, n);
    } else if k - q <= -1 {
      MulAtLeast(q - k, n);
      MulSub(q, k, n);
    }
  }

  lemma MulSub(a: int, b: int, n: int)
    ensures (a - b) * n == a * n - b * n
  {
  }

  lemma MulAtLeast(a: int, n: int)
    requires a >= 1 && n > 0
    ensures a * n >= n
  {
  }

  /** Question ids are unique among visible questions. */
  predicate UniqueQuestionIds(questions: seq<Question>) {
    forall i, j :: 0 <= i < j < |questions| && !questions[i].isDeleted && !questions[j].isDeleted ==>
      questions[i].id != questions[j].id
  }

  /** Questions are found by id alone: the right answer to a question of
      ANOTHER quiz is accepted, counted as correct, and stored under this
      quiz and this attempt. */
  lemma OtherQuizQuestionAccepted(t: QuizTables, quizId: int, q: Question, userId: int, now: Time)
    requires QuizById(t.quizzes, quizId).Some? && |QuizQuestions(t.questions, quizId)| > 0
    requires UniqueQuestionIds(t.questions)
    requires q in t.questions && !q.isDeleted && q.quizId != quizId
    requires OptionExists(t.options, q.correctOptionId, q.id)
    ensures var (out, after) := Submit(t, Some(SubmitQuizDto(quizId, Some([UserAnswer(q.id, q.correctOptionId)]))), userId, now);
      && out.Submitted? && out.response.correctAnswers == 1
      && after.submissions[|t.submissions|].quizId == quizId
      && after.submissions[|t.submissions|].questionId == q.id
      && after.submissions[|t.submissions|].attemptId == t.nextAttemptId
  {
    var a := UserAnswer(q.id, q.correctOptionId);
    var found := FindQuestion(t.questions, q.id);
    var i :| 0 <= i < |t.questions| && t.questions[i] == q;
    var j :| 0 <= j < |t.questions| && t.questions[j] == found.value;
    assert i == j;
    RepeatedAnswerCounts(t.questions, t.options, a, 1);
    assert Repeat(a, 1) == [a];
    SubmittedMeans(t, Some(SubmitQuizDto(quizId, Some([a]))), userId, now);
  }

  // ---- The repository ----

  /** The `foreach` over the answers: each answer's question is looked up
      and its option checked, the first bad answer stops the loop with its
      error, and otherwise the answer is counted, queued as a row and
      echoed. */
  /** One turn of the grading loop, on the prefixes it maintains. */
  lemma GradeStep(questions: seq<Question>, options: seq<QuestionOption>, answers: seq<UserAnswer>, i: int,
                  userId: int, quizId: int, attemptId: int, now: Time)
    requires 0 <= i < |answers|
    requires AcceptedUpTo(questions, options, answers, i)
    requires AnswerError(questions, options, answers[i]).None?
    ensures AcceptedUpTo(questions, options, answers, i + 1)
    ensures CorrectCount(questions, answers[..i + 1])
         == CorrectCount(questions, answers[..i]) + (if IsCorrect(questions, answers[i]) then 1 else 0)
    ensures AnswerRows(userId, quizId, attemptId, now, answers[..i + 1])
         == AnswerRows(userId, quizId, attemptId, now, answers[..i])
            + [QuizSubmission(userId, quizId, answers[i].questionId, Some(answers[i].selectedOptionId), attemptId, 0, now)]
  {
    var prefix := answers[..i + 1];
    assert prefix[..i] == answers[..i];
    assert prefix[|prefix| - 1] == answers[i];
    AnswerRowsSnoc(userId, quizId, attemptId, now, answers[..i], answers[i]);
    assert answers[..i] + [answers[i]] == prefix;
  }

  lemma AnswerRowsSnoc(userId: int, quizId: int, attemptId: int, now: Time, answers: seq<UserAnswer>, a: UserAnswer)
    ensures AnswerRows(userId, quizId, attemptId, now, answers + [a])
         == AnswerRows(userId, quizId, attemptId, now, answers)
            + [QuizSubmission(userId, quizId, a.questionId, Some(a.selectedOptionId), attemptId, 0, now)]
  {
  }

  method GradeEach(questions: seq<Question>, options: seq<QuestionOption>, answersIn: seq<UserAnswer>,
                   userId: int, quizId: int, attemptId: int, now: Time)
    returns (err: Option<QuizError>, correct: nat, incorrect: nat, pending: seq<QuizSubmission>, answers: seq<UserAnswer>)
    ensures err == FirstError(questions, options, answersIn)
    ensures err.None? ==>
      && correct == CorrectCount(questions, answersIn)
      && correct + incorrect == |answersIn|
      && pending == AnswerRows(userId, quizId, attemptId, now, answersIn)
      && answers == answersIn
  {
    correct, incorrect := 0, 0;
    pending, answers := [], [];
    var i := 0;
    while i < |answersIn|
      invariant 0 <= i <= |answersIn|
      invariant AcceptedUpTo(questions, options, answersIn, i)
      invariant correct == CorrectCount(questions, answersIn[..i]) && incorrect == i - correct
      invariant answers == answersIn[..i]
      invariant pending == AnswerRows(userId, quizId, attemptId, now, answersIn[..i])
    {
      var sub := answersIn[i];
      var question := FindQuestion(questions, sub.questionId);
      if question.None? {
        FirstErrorAt(questions, options, answersIn, i);
        return Some(QuestionNotFound(sub.questionId)), correct, incorrect, pending, answers;
      }
      if !OptionExists(options, sub.selectedOptionId, sub.questionId) {
        FirstErrorAt(questions, options, answersIn, i);
        return Some(OptionNotInQuestion(sub.selectedOptionId, sub.questionId)), correct, incorrect, pending, answers;
      }
      var isCorrect := sub.selectedOptionId == question.value.correctOptionId;
      GradeStep(questions, options, answersIn, i, userId, quizId, attemptId, now);
      pending := pending + [QuizSubmission(userId, quizId, sub.questionId, Some(sub.selectedOptionId), attemptId, 0, now)];
      if isCorrect {
        correct := correct + 1;
      } else {
        incorrect := incorrect + 1;
      }
      answers := answers + [sub];
      i := i + 1;
    }
    assert answersIn[..i] == answersIn;
    err := None;
  }

  class QuizRepository {
    var quizzes: seq<Quiz>
    var questions: seq<Question>
    var options: seq<QuestionOption>
    var attempts: seq<QuizAttempt>
    var submissions: seq<QuizSubmission>
    var nextAttemptId: int
    var nextQuizId: int

    function Tables(): QuizTables
      reads this
    {
      QuizTables(quizzes, questions, options, attempts, submissions, nextAttemptId, nextQuizId)
    }

    constructor (t: QuizTables)
      ensures Tables() == t
    {
      quizzes, questions, options := t.quizzes, t.questions, t.options;
      attempts, submissions, nextAttemptId := t.attempts, t.submissions, t.nextAttemptId;
      nextQuizId := t.nextQuizId;
    }

    /** `CreateQuiz(quiz)`: the repository's own topic check, then the add
        and the save, which the unique index on `TopicId` can refuse. */
    method CreateQuiz(topics: seq<Topic>, quiz: Quiz) returns (r: CreateResult)
      modifies this`quizzes, this`nextQuizId
      ensures r == AddQuiz(topics, old(quizzes), old(nextQuizId), quiz)
      ensures quizzes == if r.QuizCreated? then old(quizzes) + [r.quiz] else old(quizzes)
      ensures nextQuizId == if r.QuizCreated? then old(nextQuizId) + 1 else old(nextQuizId)
    {
      if !TopicExists(topics, quiz.topicId) {
        return NotCreated(InvalidTopic);
      }
      if TopicIndexed(quizzes, quiz.topicId) {
        return NotCreated(TopicIndexTaken);
      }
      var saved := quiz.(id := nextQuizId, isDeleted := false, dateDeleted := None);
      quizzes := quizzes + [saved];
      nextQuizId := nextQuizId + 1;
      r := QuizCreated(saved);
    }

    /** `SubmitQuiz(dto, userId)`, with the clock reading of the saves. */
    method SubmitQuiz(dto: Option<SubmitQuizDto>, userId: int, now: Time) returns (r: SubmitOutcome)
      modifies this
      ensures r == Submit(old(Tables()), dto, userId, now).0
      ensures Tables() == Submit(old(Tables()), dto, userId, now).1
    {
      var t := Tables();
      var pre := Precheck(t, dto);
      if pre.Some? {
        return Rejected(pre.value);
      }
      var quizId := dto.value.quizId;
      // The header is saved before any answer is looked at.
      var header := Header(t, userId, quizId);
      attempts := t.attempts + [header];
      nextAttemptId := t.nextAttemptId + 1;

      var err, correct, incorrect, pending, answers :=
        GradeEach(t.questions, t.options, dto.value.submissions.value, userId, quizId, header.id, now);
      if err.Some? {
        SubmitRejectedLate(t, dto, userId, now);
        return Rejected(err.value);
      }
      // The second save: the header row now holds the aggregates, and the
      // answer rows are added.
      var attempt := Graded(header, correct, |answers|);
      attempts := t.attempts + [attempt];
      submissions := t.submissions + pending;
      r := Submitted(Response(attempt, answers));
      SubmitAccepted(t, dto, userId, now);
    }

    /** `DeleteQuiz(topicId)`: the topic's visible quiz, if any, is removed,
        which the save turns into a soft delete; false when there is none. */
    method DeleteQuiz(topicId: int, now: Time) returns (ok: bool)
      modifies this`quizzes
      ensures quizzes == DeleteQuizOfTopic(old(quizzes), topicId, now)
      ensures ok <==> QuizOfTopic(old(quizzes), topicId).Some?
    {
      var k := FindFirst(quizzes, (q: Quiz) => q.topicId == topicId && !q.isDeleted);
      if k.None? {
        return false;
      }
      var i := k.value;
      quizzes := quizzes[i := quizzes[i].(isDeleted := true, dateDeleted := Some(now))];
      ok := true;
    }
  }

  // ---- Creating a quiz ----

  /** Why `CreateQuiz` fails: the repository's topic check, or the unique
      index on `TopicId`, which covers soft-deleted rows too. */
  datatype CreateQuizError = InvalidTopic | TopicIndexTaken

  datatype CreateResult = QuizCreated(quiz: Quiz) | NotCreated(error: CreateQuizError)

  /** `Topics.AnyAsync(t => t.Id == topicId)`, through the soft-delete filter. */
  predicate TopicExists(topics: seq<Topic>, topicId: int) {
    exists t :: t in topics && t.id == topicId && !t.isDeleted
  }

  /** Some stored row, deleted or not, holds the topic id in the index. */
  predicate TopicIndexed(quizzes: seq<Quiz>, topicId: int) {
    exists q :: q in quizzes && q.topicId == topicId
  }

  /** The outcome of the repository's `CreateQuiz`: the saved row takes the
      next identity value and starts visible. */
  function AddQuiz(topics: seq<Topic>, quizzes: seq<Quiz>, nextQuizId: int, quiz: Quiz): (r: CreateResult)
    ensures r.QuizCreated? <==> TopicExists(topics, quiz.topicId) && !TopicIndexed(quizzes, quiz.topicId)
    ensures r.QuizCreated? ==> r.quiz == Quiz(nextQuizId, quiz.topicId, quiz.title, false, None)
    ensures r == NotCreated(TopicIndexTaken) ==> QuizOfTopic(quizzes, quiz.topicId).None? ==>
      exists q :: q in quizzes && q.topicId == quiz.topicId && q.isDeleted
  {
    if !TopicExists(topics, quiz.topicId) then NotCreated(InvalidTopic)
    else if TopicIndexed(quizzes, quiz.topicId) then NotCreated(TopicIndexTaken)
    else QuizCreated(quiz.(id := nextQuizId, isDeleted := false, dateDeleted := None))
  }

  /** The unique index: no two stored rows share a topic. */
  predicate UniqueTopicIndex(quizzes: seq<Quiz>) {
    forall i, j :: 0 <= i < j < |quizzes| ==> quizzes[i].topicId != quizzes[j].topicId
  }

  /** Creation keeps the index unique, and with it at most one visible quiz
      per topic. */
  lemma AddQuizKeepsIndexUnique(topics: seq<Topic>, quizzes: seq<Quiz>, nextQuizId: int, quiz: Quiz)
    requires UniqueTopicIndex(quizzes)
    ensures var r := AddQuiz(topics, quizzes, nextQuizId, quiz);
      var after := if r.QuizCreated? then quizzes + [r.quiz] else quizzes;
      UniqueTopicIndex(after) && OneQuizPerTopic(after)
  {
    var r := AddQuiz(topics, quizzes, nextQuizId, quiz);
    if r.QuizCreated? {
      var after := quizzes + [r.quiz];
      forall i, j | 0 <= i < j < |after| ensures after[i].topicId != after[j].topicId {
        if j == |quizzes| {
          assert after[i] in quizzes;
        }
      }
    }
  }

  /** A soft-deleted quiz still holds its topic in the unique index: once
      a topic's quiz is deleted, no quiz can be created for that topic
      again, although no visible quiz is left for it. */
  lemma NoQuizAfterDelete(topics: seq<Topic>, quizzes: seq<Quiz>, nextQuizId: int, quiz: Quiz, now: Time)
    requires OneQuizPerTopic(quizzes)
    requires QuizOfTopic(quizzes, quiz.topicId).Some?
    requires TopicExists(topics, quiz.topicId)
    ensures var after := DeleteQuizOfTopic(quizzes, quiz.topicId, now);
      && QuizOfTopic(after, quiz.topicId).None?
      && AddQuiz(topics, after, nextQuizId, quiz) == NotCreated(TopicIndexTaken)
  {
    var after := DeleteQuizOfTopic(quizzes, quiz.topicId, now);
    DeleteHidesQuiz(quizzes, quiz.topicId, now);
    var gone := QuizOfTopic(quizzes, quiz.topicId).value.(isDeleted := true, dateDeleted := Some(now));
    assert gone in after && gone.topicId == quiz.topicId;
  }

  /** The quiz table after `DeleteQuiz`: only the topic's first visible quiz
      changes, and only its deletion flag and date. */
  function DeleteQuizOfTopic(quizzes: seq<Quiz>, topicId: int, now: Time): (r: seq<Quiz>)
    ensures |r| == |quizzes|
    ensures forall i :: 0 <= i < |quizzes| && r[i] != quizzes[i] ==>
      r[i] == quizzes[i].(isDeleted := true, dateDeleted := Some(now)) && QuizOfTopic(quizzes, topicId) == Some(quizzes[i])
  {
    match FindFirst(quizzes, (q: Quiz) => q.topicId == topicId && !q.isDeleted)
    case None => quizzes
    case Some(i) => quizzes[i := quizzes[i].(isDeleted := true, dateDeleted := Some(now))]
  }

  /** At most one visible quiz per topic. */
  predicate OneQuizPerTopic(quizzes: seq<Quiz>) {
    forall i, j :: 0 <= i < j < |quizzes| && !quizzes[i].isDeleted && !quizzes[j].isDeleted ==>
      quizzes[i].topicId != quizzes[j].topicId
  }

  /** With one quiz per topic, a delete hides the topic's quiz from every
      filtered read while the row stays stored, flagged and dated. */
  lemma DeleteHidesQuiz(quizzes: seq<Quiz>, topicId: int, now: Time)
    requires OneQuizPerTopic(quizzes)
    requires QuizOfTopic(quizzes, topicId).Some?
    ensures var after := DeleteQuizOfTopic(quizzes, topicId, now);
      && QuizOfTopic(after, topicId).None?
      && QuizOfTopic(quizzes, topicId).value.(isDeleted := true, dateDeleted := Some(now)) in after
      && OneQuizPerTopic(after)
  {
    var after := DeleteQuizOfTopic(quizzes, topicId, now);
    var i := FindFirst(quizzes, (q: Quiz) => q.topicId == topicId && !q.isDeleted).value;
    assert after[i] in after;
    forall q | q in after && q.topicId == topicId ensures q.isDeleted {
      var j :| 0 <= j < |after| && after[j] == q;
    }
  }
}
