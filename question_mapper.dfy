/** The question mapper: the author's view of a question (with its answer
    key), building a new question from a create request, and applying an
    update request. The answer key of a request is an option TEXT, which is
    resolved to an option id against the options the question holds at that
    moment; options built here are unsaved and carry id 0 until the
    database assigns one. */
module QuestionMapper {
  import opened Common
  import opened Entities
  import opened Questions

  datatype OptionView = OptionView(id: int, text: Option<string>)

  /** `GetQuestionDto`. */
  datatype QuestionView = QuestionView(
    id: int,
    quizId: int,
    questionText: Option<string>,
    options: seq<OptionView>,
    correctOptionId: int,
    correctOption: Option<string>)

  datatype CreateOptionDto = CreateOptionDto(text: Option<string>)

  datatype CreateQuestionDto = CreateQuestionDto(
    questionText: Option<string>,
    options: seq<CreateOptionDto>,
    correctOption: Option<string>)

  /** `None` for `options` stands for a null list. */
  datatype UpdateQuestionDto = UpdateQuestionDto(
    questionText: Option<string>,
    options: Option<seq<CreateOptionDto>>,
    correctOption: Option<string>)

  /** `ToQuestionDto`: ids and texts of the options in order, the answer key
      id, and the text of the option `GetCorrectOption` finds, or null. */
  function ToQuestionDto(q: Question): (r: QuestionView)
    ensures r.id == q.id && r.quizId == q.quizId && r.questionText == q.questionText
    ensures r.correctOptionId == q.correctOptionId
    ensures |r.options| == |q.options|
    ensures forall i :: 0 <= i < |q.options| ==> r.options[i] == OptionView(q.options[i].id, q.options[i].text)
    ensures r.correctOption == match GetCorrectOption(q) case None => None case Some(o) => o.text
  {
    var views := seq(|q.options|, i requires 0 <= i < |q.options| => OptionView(q.options[i].id, q.options[i].text));
    var key := match FindFirst(q.options, (o: QuestionOption) => o.id == q.correctOptionId)
               case None => None
               case Some(i) => q.options[i].text;
    QuestionView(q.id, q.quizId, q.questionText, views, q.correctOptionId, key)
  }

  /** A new, unsaved option. */
  function NewOption(dto: CreateOptionDto): QuestionOption {
    QuestionOption(0, 0, dto.text, false)
  }

  function NewOptions(dtos: seq<CreateOptionDto>): (r: seq<QuestionOption>)
    ensures |r| == |dtos|
    ensures forall i :: 0 <= i < |dtos| ==> r[i] == NewOption(dtos[i])
  {
    seq(|dtos|, i requires 0 <= i < |dtos| => NewOption(dtos[i]))
  }

  /** The option rebuild of `UpdateQuestionFromDto`: the collection is
      cleared, then one unsaved option is added per request option, in
      request order. */
  method RebuildOptions(dtos: seq<CreateOptionDto>) returns (options: seq<QuestionOption>)
    ensures options == NewOptions(dtos)
  {
    options := [];
    var i := 0;
    while i < |dtos|
      invariant 0 <= i <= |dtos|
      invariant |options| == i
      invariant forall k :: 0 <= k < i ==> options[k] == NewOption(dtos[k])
    {
      options := options + [NewOption(dtos[i])];
      i := i + 1;
    }
  }

  /** The id of the first option whose text equals `text`, if any. */
  function IdOfText(options: seq<QuestionOption>, text: Option<string>): (r: Option<int>)
    ensures r.Some? ==> exists i :: 0 <= i < |options| && options[i].text == text && options[i].id == r.value
                                    && forall j :: 0 <= j < i ==> options[j].text != text
    ensures r.None? <==> forall o :: o in options ==> o.text != text
  {
    match FindFirst(options, (o: QuestionOption) => o.text == text)
    case None => None
    case Some(i) => Some(options[i].id)
  }

  /** `ToQuestion`: one unsaved option per request option, in order, the
      text and the quiz copied; the answer key is the id of the first option
      whose text matches, and stays at its default 0 when none does. */
  function ToQuestion(dto: CreateQuestionDto, quizId: int): (r: Question)
    ensures r.quizId == quizId && r.questionText == dto.questionText
    ensures |r.options| == |dto.options|
    ensures forall i :: 0 <= i < |dto.options| ==> r.options[i].text == dto.options[i].text && r.options[i].id == 0
    ensures IdOfText(r.options, dto.correctOption).Some? ==> r.correctOptionId == IdOfText(r.options, dto.correctOption).value
  {
    var options := NewOptions(dto.options);
    var correct := match IdOfText(options, dto.correctOption) case None => 0 case Some(id) => id;
    Question(0, quizId, dto.questionText, options, correct, 0, false)
  }

  /** Since the new options all have id 0, so does the resolved answer key,
      matched or not. */
  lemma ToQuestionKeyIsZero(dto: CreateQuestionDto, quizId: int)
    ensures ToQuestion(dto, quizId).correctOptionId == 0
  {
  }

  /** Consequently a freshly mapped question passes option validation for
      any 3 to 5 options, whether or not the answer text names one of them,
      and its view reports the FIRST option's text as the correct one. */
  lemma ToQuestionKeyResolvesToFirst(dto: CreateQuestionDto, quizId: int)
    requires |dto.options| > 0
    ensures var q := ToQuestion(dto, quizId);
      && (ValidateQuestionOptions(Some(q.options), q.correctOptionId) == OptionsOk <==> 3 <= |dto.options| <= 5)
      && ToQuestionDto(q).correctOption == dto.options[0].text
  {
    var q := ToQuestion(dto, quizId);
    ToQuestionKeyIsZero(dto, quizId);
    assert q.options[0] in q.options;
    assert GetCorrectOption(q).Some?;
  }

  /** `UpdateQuestionFromDto`, returning the updated question. */
  function UpdateQuestionFromDto(q: Question, dto: UpdateQuestionDto): (r: Question)
    ensures r.id == q.id && r.quizId == q.quizId && r.score == q.score && r.isDeleted == q.isDeleted
    ensures r.questionText == if IsNullOrEmpty(dto.questionText) then q.questionText else dto.questionText
    ensures dto.options.None? || dto.options.value == [] ==> r.options == q.options
    ensures dto.options.Some? && dto.options.value != [] ==> r.options == NewOptions(dto.options.value)
    ensures r.correctOptionId != q.correctOptionId ==>
      !IsNullOrEmpty(dto.correctOption) && IdOfText(r.options, dto.correctOption) == Some(r.correctOptionId)
  {
    var text := if IsNullOrEmpty(dto.questionText) then q.questionText else dto.questionText;
    var options := if dto.options.Some? && dto.options.value != [] then NewOptions(dto.options.value) else q.options;
    var correct :=
      if IsNullOrEmpty(dto.correctOption) then q.correctOptionId
      else match IdOfText(options, dto.correctOption) case None => q.correctOptionId case Some(id) => id;
    q.(questionText := text, options := options, correctOptionId := correct)
  }

  /** Applying the same update twice is the same as applying it once. */
  lemma UpdateIdempotent(q: Question, dto: UpdateQuestionDto)
    ensures UpdateQuestionFromDto(UpdateQuestionFromDto(q, dto), dto) == UpdateQuestionFromDto(q, dto)
  {
  }

  function OptionId(o: QuestionOption): int { o.id }

  /** When the update keeps the stored options (whose ids are distinct) and
      its answer text names one of them, the author's view afterwards shows
      exactly that text as the correct option. */
  lemma UpdateKeyRoundTrip(q: Question, dto: UpdateQuestionDto)
    requires DistinctBy(q.options, OptionId)
    requires dto.options.None? || dto.options.value == []
    requires !IsNullOrEmpty(dto.correctOption)
    requires exists o :: o in q.options && o.text == dto.correctOption
    ensures ToQuestionDto(UpdateQuestionFromDto(q, dto)).correctOption == dto.correctOption
  {
    var r := UpdateQuestionFromDto(q, dto);
    var id := IdOfText(q.options, dto.correctOption).value;
    var i :| 0 <= i < |q.options| && q.options[i].text == dto.correctOption && q.options[i].id == id;
    assert r.correctOptionId == id;
    var found := GetCorrectOption(r);
    var k :| 0 <= k < |r.options| && r.options[k] == found.value
             && forall j :: 0 <= j < k ==> r.options[j].id != r.correctOptionId;
    assert k == i;
  }

  /** When the update replaces the options and names one of the new texts,
      the answer key becomes 0, the id every unsaved option has. */
  lemma UpdateWithNewOptionsKeyIsZero(q: Question, dto: UpdateQuestionDto)
    requires dto.options.Some? && dto.options.value != []
    requires !IsNullOrEmpty(dto.correctOption)
    requires exists o :: o in dto.options.value && o.text == dto.correctOption
    ensures UpdateQuestionFromDto(q, dto).correctOptionId == 0
  {
    var o :| o in dto.options.value && o.text == dto.correctOption;
    var i :| 0 <= i < |dto.options.value| && dto.options.value[i] == o;
    var options := NewOptions(dto.options.value);
    assert options[i] in options;
  }
}
