/** The learner's view of a quiz: its questions and their options, with no
    answer key. The mapper has two entry points with the same projection. */
module QuizMapper {
  import opened Common
  import opened Entities
  import QuestionMapper

  type OptionView = QuestionMapper.OptionView

  /** `QuestionDto`: id, text and options only. */
  datatype QuestionSummary = QuestionSummary(id: int, questionText: Option<string>, options: seq<OptionView>)

  /** `QuizDto`. */
  datatype QuizView = QuizView(id: int, title: Option<string>, topicId: int, questions: seq<QuestionSummary>)

  function OptionsOf(options: seq<QuestionOption>): (r: seq<OptionView>)
    ensures |r| == |options|
    ensures forall i :: 0 <= i < |options| ==> r[i] == QuestionMapper.OptionView(options[i].id, options[i].text)
  {
    seq(|options|, i requires 0 <= i < |options| => QuestionMapper.OptionView(options[i].id, options[i].text))
  }

  function Summary(q: Question): QuestionSummary {
    QuestionSummary(q.id, q.questionText, OptionsOf(q.options))
  }

  /** `ToQuizDto`; `questions` is the quiz's loaded `Questions` collection. */
  function ToQuizDto(quiz: Quiz, questions: seq<Question>): (r: QuizView)
    ensures r.id == quiz.id && r.title == quiz.title && r.topicId == quiz.topicId
    ensures |r.questions| == |questions|
    ensures forall i :: 0 <= i < |questions| ==>
      && r.questions[i].id == questions[i].id
      && r.questions[i].questionText == questions[i].questionText
      && r.questions[i].options == OptionsOf(questions[i].options)
  {
    QuizView(quiz.id, quiz.title, quiz.topicId, seq(|questions|, i requires 0 <= i < |questions| => Summary(questions[i])))
  }

  /** `ToQuizDtoWithoutAnswers`, the projection handed to learners. */
  function ToQuizDtoWithoutAnswers(quiz: Quiz, questions: seq<Question>): (r: QuizView)
    ensures r.id == quiz.id && r.title == quiz.title && r.topicId == quiz.topicId
    ensures |r.questions| == |questions|
  {
    var summaries := seq(|questions|, i requires 0 <= i < |questions| =>
      QuestionSummary(questions[i].id, questions[i].questionText, OptionsOf(questions[i].options)));
    QuizView(quiz.id, quiz.title, quiz.topicId, summaries)
  }

  /** The two entry points agree on every quiz. */
  lemma EntryPointsAgree(quiz: Quiz, questions: seq<Question>)
    ensures ToQuizDto(quiz, questions) == ToQuizDtoWithoutAnswers(quiz, questions)
  {
  }

  /** Same question apart from the answer key and the score. */
  predicate SameButKey(a: Question, b: Question) {
    a.(correctOptionId := 0, score := 0) == b.(correctOptionId := 0, score := 0)
  }

  /** The view carries no answer key: questions that differ only in their
      correct option and score give the same view. */
  lemma {:induction false} ViewHidesAnswerKey(quiz: Quiz, questions: seq<Question>, other: seq<Question>)
    requires |questions| == |other|
    requires forall i :: 0 <= i < |questions| ==> SameButKey(questions[i], other[i])
    ensures ToQuizDtoWithoutAnswers(quiz, questions) == ToQuizDtoWithoutAnswers(quiz, other)
  {
    var a := ToQuizDtoWithoutAnswers(quiz, questions);
    var b := ToQuizDtoWithoutAnswers(quiz, other);
    forall i | 0 <= i < |questions| ensures a.questions[i] == b.questions[i] {
      var x, y := questions[i], other[i];
      assert x.(correctOptionId := 0, score := 0).options == y.(correctOptionId := 0, score := 0).options;
      assert x.id == y.id && x.questionText == y.questionText && x.options == y.options;
    }
  }

  /** Each question of the learner's view is the author's view of that
      question with the answer key dropped. */
  lemma LearnerViewIsAuthorViewWithoutKey(quiz: Quiz, questions: seq<Question>, i: int)
    requires 0 <= i < |questions|
    ensures var author := QuestionMapper.ToQuestionDto(questions[i]);
      ToQuizDtoWithoutAnswers(quiz, questions).questions[i]
        == QuestionSummary(author.id, author.questionText, author.options)
  {
  }
}
