/** Question authoring rules: the correct-option lookup on a question, the
    option-count and answer-key validation, and the store that only accepts
    questions passing it. */
module Questions {
  import opened Common
  import opened Entities

  const MinOptions := 3
  const MaxOptions := 5

  /** `Question.GetCorrectOption`: the first option, in collection order,
      whose id is the question's `CorrectOptionId`, or none. */
  function GetCorrectOption(q: Question): (r: Option<QuestionOption>)
    ensures r.Some? ==> r.value in q.options && r.value.id == q.correctOptionId
    ensures r.None? <==> forall o :: o in q.options ==> o.id != q.correctOptionId
    ensures r.Some? ==> exists i :: 0 <= i < |q.options| && q.options[i] == r.value
                                    && forall j :: 0 <= j < i ==> q.options[j].id != q.correctOptionId
  {
    match FindFirst(q.options, (o: QuestionOption) => o.id == q.correctOptionId)
    case None => None
    case Some(i) => Some(q.options[i])
  }

  /** Some option carries the id. */
  predicate Lists(options: seq<QuestionOption>, optionId: int) {
    exists o :: o in options && o.id == optionId
  }

  /** The outcome of `ValidateQuestionOptions`: accepted, or the
      `ArgumentException` it throws. */
  datatype OptionCheck = OptionsOk | TooFewOptions | TooManyOptions | CorrectOptionNotListed

  function Message(c: OptionCheck): Option<string> {
    match c
    case OptionsOk => None
    case TooFewOptions => Some("A question must have at least 3 options.")
    case TooManyOptions => Some("A question can have at most 5 options.")
    case CorrectOptionNotListed => Some("The correct option must be one of the question's options.")
  }

  /** `ValidateQuestionOptions`; `None` stands for a null `Options`
      collection. The checks run low count, high count, answer key, and the
      first failure is the one reported. */
  function ValidateQuestionOptions(options: Option<seq<QuestionOption>>, correctOptionId: int): (r: OptionCheck)
    ensures r == OptionsOk <==>
      options.Some? && MinOptions <= |options.value| <= MaxOptions && Lists(options.value, correctOptionId)
    ensures r == TooFewOptions <==> options.None? || |options.value| < MinOptions
    ensures r == TooManyOptions <==> options.Some? && |options.value| > MaxOptions
  {
    if options.None? || |options.value| < MinOptions then TooFewOptions
    else if |options.value| > MaxOptions then TooManyOptions
    else if !Lists(options.value, correctOptionId) then CorrectOptionNotListed
    else OptionsOk
  }

  /** A question that passes validation has a correct option to look up. */
  lemma ValidatedHasCorrectOption(q: Question)
    requires ValidateQuestionOptions(Some(q.options), q.correctOptionId) == OptionsOk
    ensures GetCorrectOption(q).Some?
    ensures 3 <= |q.options| <= 5
  {
    var o :| o in q.options && o.id == q.correctOptionId;
  }

  /** Validation reads only the number of options and their ids: texts,
      question text, quiz and score play no part. */
  lemma ValidationIgnoresTexts(q: Question, texts: seq<Option<string>>)
    requires |texts| == |q.options|
    ensures var relabelled := seq(|q.options|, i requires 0 <= i < |q.options| => q.options[i].(text := texts[i]));
      ValidateQuestionOptions(Some(relabelled), q.correctOptionId)
        == ValidateQuestionOptions(Some(q.options), q.correctOptionId)
  {
    var relabelled := seq(|q.options|, i requires 0 <= i < |q.options| => q.options[i].(text := texts[i]));
    if Lists(q.options, q.correctOptionId) {
      var o :| o in q.options && o.id == q.correctOptionId;
      var i :| 0 <= i < |q.options| && q.options[i] == o;
      assert relabelled[i] in relabelled;
    }
    if Lists(relabelled, q.correctOptionId) {
      var o :| o in relabelled && o.id == q.correctOptionId;
      var i :| 0 <= i < |relabelled| && relabelled[i] == o;
      assert q.options[i] in q.options;
    }
  }

  /** Every stored question passed validation. */
  predicate AllValidated(questions: seq<Question>) {
    forall q :: q in questions ==> ValidateQuestionOptions(Some(q.options), q.correctOptionId) == OptionsOk
  }

  /** The Questions table as `AddQuestionAsync` sees it. */
  class QuestionStore {
    var questions: seq<Question>

    constructor ()
      ensures questions == [] && AllValidated(questions)
    {
      questions := [];
    }

    /** `AddQuestionAsync`: validate, and only on success append and save. */
    method AddQuestionAsync(q: Question) returns (r: OptionCheck)
      modifies this
      ensures r == ValidateQuestionOptions(Some(q.options), q.correctOptionId)
      ensures questions == if r == OptionsOk then old(questions) + [q] else old(questions)
      ensures AllValidated(old(questions)) ==> AllValidated(questions)
    {
      r := ValidateQuestionOptions(Some(q.options), q.correctOptionId);
      if r == OptionsOk {
        questions := questions + [q];
      }
    }
  }

  // ---- The unit-test fixtures ----

  function Opt(id: int, text: string): QuestionOption {
    QuestionOption(id, 0, Some(text), false)
  }

  function Fixture(options: seq<QuestionOption>, correctOptionId: int): Question {
    Question(0, 1, Some("What is the capital of France?"), options, correctOptionId, 0, false)
  }

  /** Six options: rejected with "at most 5". */
  lemma SixOptionsRejected()
    ensures var q := Fixture([Opt(1, "Option 1"), Opt(2, "Option 2"), Opt(3, "Option 3"),
                              Opt(4, "Option 4"), Opt(5, "Option 5"), Opt(6, "Option 6")], 1);
      ValidateQuestionOptions(Some(q.options), q.correctOptionId) == TooManyOptions
      && Message(TooManyOptions) == Some("A question can have at most 5 options.")
  {
  }

  /** Correct id 99 among ids 1..3: rejected as not listed. */
  lemma UnlistedCorrectOptionRejected()
    ensures var q := Fixture([Opt(1, "Option 1"), Opt(2, "Option 2"), Opt(3, "Option 3")], 99);
      ValidateQuestionOptions(Some(q.options), q.correctOptionId) == CorrectOptionNotListed
  {
    var q := Fixture([Opt(1, "Option 1"), Opt(2, "Option 2"), Opt(3, "Option 3")], 99);
    assert !Lists(q.options, 99);
  }

  /** Three options with correct id 2: accepted, and the answer key resolves. */
  lemma ThreeOptionsAccepted()
    ensures var q := Fixture([Opt(1, "Option 1"), Opt(2, "Option 2"), Opt(3, "Option 3")], 2);
      ValidateQuestionOptions(Some(q.options), q.correctOptionId) == OptionsOk
      && GetCorrectOption(q) == Some(Opt(2, "Option 2"))
  {
    var q := Fixture([Opt(1, "Option 1"), Opt(2, "Option 2"), Opt(3, "Option 3")], 2);
    assert q.options[1] in q.options;
  }

  /** As written: the fixture of the "fewer than three options" test holds
      three options with a listed answer key, so the check accepts it and
      the "at least 3" rejection the test expects cannot occur. */
  lemma LessThanThreeFixtureAccepted()
    ensures var q := Fixture([Opt(1, "Paris"), Opt(2, "London"), Opt(3, "Berlin")], 1);
      ValidateQuestionOptions(Some(q.options), q.correctOptionId) == OptionsOk
      && ValidateQuestionOptions(Some(q.options), q.correctOptionId) != TooFewOptions
  {
    var q := Fixture([Opt(1, "Paris"), Opt(2, "London"), Opt(3, "Berlin")], 1);
    assert q.options[0] in q.options;
  }

  /** Corrected fixture: with two options the check reports "at least 3",
      and so it does for every count below three or a null collection,
      whatever the answer key. */
  lemma FewerThanThreeRejected(options: Option<seq<QuestionOption>>, correctOptionId: int)
    requires options.None? || |options.value| < 3
    ensures ValidateQuestionOptions(options, correctOptionId) == TooFewOptions
    ensures ValidateQuestionOptions(Some([Opt(1, "Paris"), Opt(2, "London")]), 1) == TooFewOptions
    ensures Message(TooFewOptions) == Some("A question must have at least 3 options.")
  {
  }
}
