/** The quiz screen as a state machine: the answer buttons, the "next"
    button and the initial load. Each effective answer asks the
    wrong-answer store for exactly one change, which is returned as a
    `StoreCall` and applied by `Apply`. */
module QuizScreen {
  import opened Wrappers
  import opened Sequences
  import opened Questions
  import opened Catalog
  import opened Repository
  import WrongAnswers

  /** The screen's state variables. */
  datatype QuizState = QuizState(
    questions: seq<Question>,
    current: nat,
    selected: Option<int>,
    showExplanation: bool,
    correct: nat,
    navigateToResult: bool)

  /** The store mutation an answer asks for, on the current question's id. */
  datatype StoreCall = RemoveRecordCall(id: string) | RecordWrongCall(id: string)

  /** A user action on the screen. */
  datatype Event = Tap(index: int) | Next

  /** True/false questions show the two buttons ◯ (0) and ✕ (1); every
      other question shows one button per choice. */
  predicate ButtonExists(q: Question, index: int) {
    if "◯" in q.choices then index == 0 || index == 1
    else 0 <= index < |q.choices|
  }

  /** The screen's invariant: the explanation is shown exactly when an
      answer is selected, the selected answer is a button of the current
      question, and the index points into a non-empty list. */
  predicate Inv(s: QuizState) {
    && (s.showExplanation <==> s.selected.Some?)
    && (s.questions == [] ==> s.current == 0 && s.selected.None?)
    && (s.questions != [] ==> s.current < |s.questions|)
    && (s.selected.Some? && s.questions != [] ==> ButtonExists(s.questions[s.current], s.selected.value))
  }

  /** The state before anything is answered. */
  function Initial(questions: seq<Question>): (s: QuizState)
    ensures Inv(s)
    ensures s.questions == questions && s.current == 0 && s.correct == 0
    ensures s.selected.None? && !s.navigateToResult
  {
    QuizState(questions, 0, None, false, 0, false)
  }

  /** `loadQuestions()` on appearing: the caller's questions verbatim when
      given, otherwise the repository's session for the topic. */
  function Load(topic: Topic, custom: Option<seq<Question>>, payload: Payload, picks: seq<nat>): (s: QuizState)
    ensures Inv(s) && s.current == 0 && s.selected.None? && s.correct == 0
    ensures custom.Some? ==> s.questions == custom.value
    ensures custom.None? ==>
              && |s.questions| == Min(SessionLimit(topic), |Candidates(topic, payload)|)
              && multiset(s.questions) <= multiset(Candidates(topic, payload))
  {
    match custom
    case Some(qs) => Initial(qs)
    case None => Initial(LoadQuestions(topic, payload, picks))
  }

  /** The store call an answer `index` to question `q` makes: a right answer
      clears the question from the wrong list, a wrong one records it. */
  function CallFor(q: Question, index: int): (c: StoreCall)
    ensures c.id == q.id
    ensures c.RemoveRecordCall? <==> index == q.answerIndex
  {
    if index == q.answerIndex then RemoveRecordCall(q.id) else RecordWrongCall(q.id)
  }

  /** A tap on answer button `index`. It has an effect only when nothing is
      selected yet and the button is shown; it then selects the answer,
      shows the explanation and makes exactly one store call. */
  function Answer(s: QuizState, index: int): (r: (QuizState, Option<StoreCall>))
    requires Inv(s)
    ensures Inv(r.0)
    ensures r.1.Some? <==> s.questions != [] && s.selected.None? && ButtonExists(s.questions[s.current], index)
    ensures r.1.None? ==> r.0 == s
    ensures r.1.Some? ==>
              && r.0 == s.(selected := Some(index), showExplanation := true)
              && r.1.value.id == s.questions[s.current].id
              && (r.1.value.RemoveRecordCall? <==> index == s.questions[s.current].answerIndex)
  {
    if s.questions != [] && s.selected.None? && ButtonExists(s.questions[s.current], index) then
      (s.(selected := Some(index), showExplanation := true), Some(CallFor(s.questions[s.current], index)))
    else
      (s, None)
  }

  /** A second tap on the same question changes nothing: at most one answer
      is recorded per question. */
  lemma AnswerIsOneShot(s: QuizState, i: int, j: int)
    requires Inv(s)
    ensures Answer(s, i).1.Some? ==> Answer(Answer(s, i).0, j) == (Answer(s, i).0, None)
  {
  }

  /** `nextQuestion()`: a correct selection is counted; then the screen
      moves to the next question with a clean slate, or, on the last
      question, asks for the result screen and stays where it is. */
  function NextQuestion(s: QuizState): (r: QuizState)
    requires Inv(s) && s.questions != []
    ensures Inv(r)
    ensures r.questions == s.questions
    ensures r.correct == if s.selected == Some(s.questions[s.current].answerIndex) then s.correct + 1 else s.correct
    ensures s.current < |s.questions| - 1 ==>
              && r.current == s.current + 1 && r.selected.None? && !r.showExplanation
              && r.navigateToResult == s.navigateToResult
    ensures s.current == |s.questions| - 1 ==>
              && r.current == s.current && r.navigateToResult
              && r.selected == s.selected && r.showExplanation == s.showExplanation
  {
    var counted := if s.selected.Some? && s.selected.value == s.questions[s.current].answerIndex
                   then s.correct + 1 else s.correct;
    if s.current < |s.questions| - 1 then
      s.(correct := counted, current := s.current + 1, selected := None, showExplanation := false)
    else
      s.(correct := counted, navigateToResult := true)
  }

  /** One user action. The "next" button is shown only with the
      explanation, and no button is shown for an empty list. A tap is an
      answer; "next" never calls the store and does nothing until an
      answer is selected. */
  function Step(s: QuizState, e: Event): (r: (QuizState, Option<StoreCall>))
    requires Inv(s)
    ensures Inv(r.0)
    ensures r.0.questions == s.questions
    ensures e.Tap? ==> r == Answer(s, e.index)
    ensures e.Tap? ==> (r.1.Some? <==> s.questions != [] && s.selected.None? && ButtonExists(s.questions[s.current], e.index))
    ensures e.Next? ==> r.1.None? && (r.0 != s ==> s.selected.Some?)
    ensures e.Next? && s.selected.Some? ==> r.0 == NextQuestion(s)
  {
    match e
    case Tap(i) => Answer(s, i)
    case Next => if s.questions != [] && s.showExplanation then (NextQuestion(s), None) else (s, None)
  }

  /** Runs a sequence of actions, collecting the store calls in order. */
  function Run(s: QuizState, events: seq<Event>): (r: (QuizState, seq<StoreCall>))
    requires Inv(s)
    ensures Inv(r.0)
    ensures r.0.questions == s.questions
    decreases |events|
  {
    if events == [] then (s, [])
    else
      var (t, call) := Step(s, events[0]);
      var (u, calls) := Run(t, events[1..]);
      (u, (if call.Some? then [call.value] else []) + calls)
  }

  function CountNext(events: seq<Event>): nat {
    if events == [] then 0 else (if events[0].Next? then 1 else 0) + CountNext(events[1..])
  }

  /** 1 while the current question is still unanswered. */
  function Pending(s: QuizState): nat {
    if s.selected.None? then 1 else 0
  }

  /** However the user taps, the store is called exactly once per question
      answered: the calls plus the still-pending question equal the
      questions moved past plus the question pending at the start, and
      they never outnumber the "next" presses plus that pending question. */
  lemma {:induction false} CallsPerQuestion(s: QuizState, events: seq<Event>)
    requires Inv(s)
    ensures s.current <= Run(s, events).0.current
    ensures |Run(s, events).1| + Pending(Run(s, events).0) == (Run(s, events).0.current - s.current) + Pending(s)
    ensures |Run(s, events).1| + Pending(Run(s, events).0) <= CountNext(events) + Pending(s)
    decreases |events|
  {
    if events != [] {
      var (t, call) := Step(s, events[0]);
      CallsPerQuestion(t, events[1..]);
    }
  }

  /** However the user taps, no more answers are counted correct than
      "next" was pressed. */
  lemma {:induction false} CorrectBounded(s: QuizState, events: seq<Event>)
    requires Inv(s)
    ensures Run(s, events).0.correct <= s.correct + CountNext(events)
    decreases |events|
  {
    if events != [] {
      var (t, call) := Step(s, events[0]);
      CorrectBounded(t, events[1..]);
    }
  }

  /** Performs a store call on the wrong-answer store at time `now`. */
  function Apply(store: WrongAnswers.Store, call: StoreCall, now: int): (r: WrongAnswers.Store)
    ensures call.RecordWrongCall? ==> call.id in WrongAnswers.Ids(r.records)
    ensures WrongAnswers.Valid(store.records) ==> WrongAnswers.Valid(r.records)
    ensures WrongAnswers.Valid(store.records) && call.RemoveRecordCall? ==> call.id !in WrongAnswers.Ids(r.records)
  {
    match call
    case RemoveRecordCall(id) => WrongAnswers.RemoveRecord(store, id)
    case RecordWrongCall(id) => WrongAnswers.RecordWrong(store, id, now)
  }

  /** After an effective answer, the current question is on the wrong list
      exactly when the answer was wrong. */
  lemma AnswerUpdatesStore(s: QuizState, index: int, store: WrongAnswers.Store, now: int)
    requires Inv(s) && WrongAnswers.Valid(store.records)
    requires Answer(s, index).1.Some?
    ensures var after := Apply(store, Answer(s, index).1.value, now);
            var q := s.questions[s.current];
            q.id in WrongAnswers.Ids(after.records) <==> index != q.answerIndex
  {
  }
}
