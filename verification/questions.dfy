/** The `Question` record of the quiz bank: the validating decoder that reads
    a raw JSON object with its legacy field-name variants, the encoder that
    writes the canonical field names, the memberwise initialiser, and the
    fixed index-to-label mapping A-D. */
module Questions {
  import opened Wrappers

  /** Category given to a record that carries none. */
  const Uncategorized: string := "未分類"

  /** The answer labels, in answer-index order. */
  const Labels: seq<string> := ["A", "B", "C", "D"]

  datatype Question = Question(
    id: string,
    category: string,
    question: string,
    choices: seq<string>,
    answerLabel: string,
    answerIndex: int,
    explanation: string)

  /** One JSON object of a topic file, with every key the decoder looks at.
      `question`/`text` and `answer_index`/`correct` are the legacy name pairs;
      keys the decoder does not know (`image_name`) are not represented. */
  datatype RawRecord = RawRecord(
    id: Option<string>,
    category: Option<string>,
    question: Option<string>,
    text: Option<string>,
    choices: Option<seq<string>>,
    answerLabel: Option<string>,
    answerIndex: Option<int>,
    correct: Option<int>,
    explanation: Option<string>)

  /** The ways the decoder rejects a record, one per `throw` of the source. */
  datatype DecodeError =
    | MissingPrompt
    | MissingChoices
    | BadChoiceCount(count: nat)
    | MissingAnswerIndex
    | AnswerIndexOutOfRange(index: int, count: nat)
    | LabelMismatch(found: string, derived: string)
    | MissingExplanation

  /** The label of an answer index: "A".."D", or "" outside 0..3. */
  function Label(index: int): (r: string)
    ensures r != "" <==> 0 <= index < 4
    ensures |r| <= 1
  {
    if 0 <= index < |Labels| then Labels[index] else ""
  }

  /** The inverse of `Label` on the four labels. */
  function IndexOfLabel(tag: string): (r: Option<nat>)
    ensures r.Some? ==> r.value < 4 && Label(r.value) == tag
    ensures r.None? ==> forall i :: 0 <= i < 4 ==> Label(i) != tag
  {
    if tag == "A" then Some(0)
    else if tag == "B" then Some(1)
    else if tag == "C" then Some(2)
    else if tag == "D" then Some(3)
    else None
  }

  lemma LabelRoundTrip(i: int)
    requires 0 <= i < 4
    ensures IndexOfLabel(Label(i)) == Some(i)
  {
  }

  /** The prompt text: `question` when present, otherwise `text`. */
  function Prompt(raw: RawRecord): Option<string> {
    if raw.question.Some? then raw.question else raw.text
  }

  /** The answer index: `answer_index` when present, otherwise `correct`. */
  function AnswerIndexField(raw: RawRecord): Option<int> {
    if raw.answerIndex.Some? then raw.answerIndex else raw.correct
  }

  /** The decoder's checks up to and including the choice count: a prompt,
      a `choices` list, and two or four entries in it. */
  predicate ShapeOk(raw: RawRecord) {
    && (raw.question.Some? || raw.text.Some?)
    && raw.choices.Some?
    && (|raw.choices.value| == 2 || |raw.choices.value| == 4)
  }

  /** The checks up to the range check: the shape, and an answer index
      under one of its two names. */
  predicate IndexPresent(raw: RawRecord) {
    ShapeOk(raw) && (raw.answerIndex.Some? || raw.correct.Some?)
  }

  /** The checks up to the label check: the answer index points at a
      choice. */
  predicate InRange(raw: RawRecord) {
    && IndexPresent(raw)
    && 0 <= AnswerIndexField(raw).value < |raw.choices.value|
  }

  /** Every check of the decoder before the final `explanation` lookup
      passes: a prompt, two or four choices, an in-range answer index, and no
      label that contradicts it. */
  predicate ChecksPass(raw: RawRecord) {
    && InRange(raw)
    && (raw.answerLabel.None? || raw.answerLabel.value == Labels[AnswerIndexField(raw).value])
  }

  /** What every decoded question satisfies. */
  predicate WellFormed(q: Question) {
    && (|q.choices| == 2 || |q.choices| == 4)
    && 0 <= q.answerIndex < |q.choices|
    && q.answerLabel == Label(q.answerIndex)
  }

  /** `Question.init(from:)`: checks the record field by field, in a fixed
      order, and fails with the first check that does not pass. */
  function Decode(raw: RawRecord): (r: Result<Question, DecodeError>)
    // first failure wins, in source order
    ensures r == Failure(MissingPrompt) <==> raw.question.None? && raw.text.None?
    ensures r == Failure(MissingChoices) <==>
              (raw.question.Some? || raw.text.Some?) && raw.choices.None?
    ensures (r.Failure? && r.error.BadChoiceCount?) <==>
              && (raw.question.Some? || raw.text.Some?)
              && raw.choices.Some?
              && |raw.choices.value| !in {2, 4}
    ensures (raw.question.Some? || raw.text.Some?) && raw.choices.Some? && |raw.choices.value| !in {2, 4} ==>
              r == Failure(BadChoiceCount(|raw.choices.value|))
    ensures r == Failure(MissingAnswerIndex) <==>
              ShapeOk(raw) && raw.answerIndex.None? && raw.correct.None?
    ensures (r.Failure? && r.error.AnswerIndexOutOfRange?) <==>
              IndexPresent(raw) && !(0 <= AnswerIndexField(raw).value < |raw.choices.value|)
    ensures IndexPresent(raw) && !(0 <= AnswerIndexField(raw).value < |raw.choices.value|) ==>
              r == Failure(AnswerIndexOutOfRange(AnswerIndexField(raw).value, |raw.choices.value|))
    ensures (r.Failure? && r.error.LabelMismatch?) <==>
              InRange(raw) && raw.answerLabel.Some? && raw.answerLabel.value != Labels[AnswerIndexField(raw).value]
    ensures InRange(raw) && raw.answerLabel.Some? && raw.answerLabel.value != Labels[AnswerIndexField(raw).value] ==>
              r == Failure(LabelMismatch(raw.answerLabel.value, Labels[AnswerIndexField(raw).value]))
    ensures r == Failure(MissingExplanation) <==> ChecksPass(raw) && raw.explanation.None?
    ensures r.Success? <==> ChecksPass(raw) && raw.explanation.Some?
    // what a decoded question is
    ensures r.Success? ==> WellFormed(r.value) && raw.explanation == Some(r.value.explanation)
    ensures r.Success? ==> raw.choices == Some(r.value.choices)
    ensures r.Success? ==> r.value.answerLabel == Labels[r.value.answerIndex]
    // legacy names are consulted only when the primary name is absent
    ensures r.Success? && raw.question.Some? ==> r.value.question == raw.question.value
    ensures r.Success? && raw.question.None? ==> r.value.question == raw.text.value
    ensures r.Success? && raw.answerIndex.Some? ==> r.value.answerIndex == raw.answerIndex.value
    ensures r.Success? && raw.answerIndex.None? ==> r.value.answerIndex == raw.correct.value
    // defaults
    ensures r.Success? && raw.id.Some? ==> r.value.id == raw.id.value
    ensures r.Success? && raw.id.None? ==> r.value.id == r.value.question
    ensures r.Success? && raw.category.Some? ==> r.value.category == raw.category.value
    ensures r.Success? && raw.category.None? ==> r.value.category == Uncategorized
  {
    match Prompt(raw)
    case None => Failure(MissingPrompt)
    case Some(prompt) =>
      match raw.choices
      case None => Failure(MissingChoices)
      case Some(choices) =>
        if |choices| != 2 && |choices| != 4 then Failure(BadChoiceCount(|choices|))
        else
          match AnswerIndexField(raw)
          case None => Failure(MissingAnswerIndex)
          case Some(index) =>
            if !(0 <= index < |choices|) then Failure(AnswerIndexOutOfRange(index, |choices|))
            else
              var derived := Label(index);
              if raw.answerLabel.Some? && raw.answerLabel.value != derived then
                Failure(LabelMismatch(raw.answerLabel.value, derived))
              else
                match raw.explanation
                case None => Failure(MissingExplanation)
                case Some(explanation) =>
                  Success(Question(
                    raw.id.GetOr(prompt),
                    raw.category.GetOr(Uncategorized),
                    prompt,
                    choices,
                    raw.answerLabel.GetOr(derived),
                    index,
                    explanation))
  }

  /** `encode(to:)`: every field under its primary key; the legacy keys
      `text` and `correct` are never written. */
  function Encode(q: Question): RawRecord {
    RawRecord(
      Some(q.id), Some(q.category), Some(q.question), None, Some(q.choices),
      Some(q.answerLabel), Some(q.answerIndex), None, Some(q.explanation))
  }

  /** Encoding then decoding gives the question back exactly when it is
      well-formed; otherwise the decoder rejects it. */
  lemma EncodeDecodeRoundTrip(q: Question)
    ensures Decode(Encode(q)) == Success(q) <==> WellFormed(q)
    ensures !WellFormed(q) ==> Decode(Encode(q)).Failure?
  {
  }

  /** Every decoded question survives an encode/decode round trip unchanged. */
  lemma DecodedRoundTrip(raw: RawRecord)
    requires Decode(raw).Success?
    ensures Decode(Encode(Decode(raw).value)) == Decode(raw)
  {
    EncodeDecodeRoundTrip(Decode(raw).value);
  }

  /** The memberwise initialiser. The source's default arguments (a fresh
      UUID for `id`, `Uncategorized` for `category`) are supplied by the
      caller; a missing label is derived from the index. */
  function MakeQuestion(
    id: string, category: string, question: string, choices: seq<string>,
    answerLabel: Option<string>, answerIndex: int, explanation: string): (q: Question)
    ensures q.id == id && q.category == category && q.question == question
    ensures q.choices == choices && q.answerIndex == answerIndex && q.explanation == explanation
    ensures answerLabel.Some? ==> q.answerLabel == answerLabel.value
    ensures answerLabel.None? && 0 <= answerIndex < 4 ==> q.answerLabel == Labels[answerIndex]
    ensures answerLabel.None? && !(0 <= answerIndex < 4) ==> q.answerLabel == ""
    ensures (answerLabel.None? && (|choices| == 2 || |choices| == 4) && 0 <= answerIndex < |choices|)
              ==> Decode(Encode(q)) == Success(q)
  {
    var q := Question(id, category, question, choices, answerLabel.GetOr(Label(answerIndex)),
                      answerIndex, explanation);
    EncodeDecodeRoundTrip(q);
    q
  }
}
