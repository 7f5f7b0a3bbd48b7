/** The question repository: decodes a topic's records all-or-nothing,
    keeps the records of the topic's category (or all of them when none
    match), and either draws a shuffled, size-limited session from them or
    returns them in file order. The bundle lookup and the JSON parse are
    abstracted into a `Payload`. */
module Repository {
  import opened Wrappers
  import opened Sequences
  import opened Questions
  import opened Catalog
  import opened Shuffle

  /** A topic's resource as parsed JSON records; `None` when the file is
      missing or cannot be read. */
  type Payload = Option<seq<RawRecord>>

  /** Decodes every record; the first record that fails fails the whole list. */
  function DecodeAll(raws: seq<RawRecord>): (r: Result<seq<Question>, DecodeError>)
    ensures r.Success? <==> forall i :: 0 <= i < |raws| ==> Decode(raws[i]).Success?
    ensures r.Success? ==> |r.value| == |raws|
    ensures r.Success? ==> forall i :: 0 <= i < |raws| ==> Decode(raws[i]) == Success(r.value[i])
    ensures r.Failure? ==>
              exists i :: && 0 <= i < |raws|
                          && Decode(raws[i]) == Failure(r.error)
                          && forall j :: 0 <= j < i ==> Decode(raws[j]).Success?
  {
    if raws == [] then Success([])
    else
      match Decode(raws[0])
      case Failure(e) => Failure(e)
      case Success(q) =>
        match DecodeAll(raws[1..])
        case Failure(e) =>
          ghost var i :| && 0 <= i < |raws[1..]|
                         && Decode(raws[1..][i]) == Failure(e)
                         && forall j :: 0 <= j < i ==> Decode(raws[1..][j]).Success?;
          assert Decode(raws[i + 1]) == Failure(e);
          assert forall j :: 0 <= j < i + 1 ==> Decode(raws[j]).Success? by {
            forall j | 0 < j < i + 1 ensures Decode(raws[j]).Success? {
              assert raws[j] == raws[1..][j - 1];
            }
          }
          Failure(e)
        case Success(qs) =>
          assert forall i :: 0 < i < |raws| ==> raws[i] == raws[1..][i - 1];
          Success([q] + qs)
  }

  /** The questions of one category, in file order. */
  function FilterCategory(qs: seq<Question>, category: string): (r: seq<Question>)
    ensures forall q :: q in r ==> q.category == category
    ensures forall q :: multiset(r)[q] == if q.category == category then multiset(qs)[q] else 0
    ensures r == [] <==> forall i :: 0 <= i < |qs| ==> qs[i].category != category
  {
    if qs == [] then []
    else
      assert qs == [qs[0]] + qs[1..];
      var rest := FilterCategory(qs[1..], category);
      if qs[0].category == category then [qs[0]] + rest else rest
  }

  /** A one-question list keeps its question exactly when it has the
      category. */
  lemma FilterCategorySingle(q: Question, category: string)
    ensures FilterCategory([q], category) == if q.category == category then [q] else []
  {
    assert [q][1..] == [];
  }

  /** Filtering a concatenation filters each part and keeps them in order:
      with `FilterCategorySingle` this fixes the result as the category's
      questions in file order. */
  lemma {:induction false} FilterCategoryAppend(a: seq<Question>, b: seq<Question>, category: string)
    ensures FilterCategory(a + b, category) == FilterCategory(a, category) + FilterCategory(b, category)
  {
    if a == [] {
      assert a + b == b;
    } else {
      assert (a + b)[0] == a[0];
      assert (a + b)[1..] == a[1..] + b;
      FilterCategoryAppend(a[1..], b, category);
    }
  }

  /** The decoded questions of a payload; `None` when it is missing or any
      record fails to decode. */
  function DecodedPayload(payload: Payload): Option<seq<Question>> {
    match payload
    case None => None
    case Some(raws) =>
      match DecodeAll(raws)
      case Failure(_) => None
      case Success(all) => Some(all)
  }

  /** The set `loadQuestions` draws from: the topic's category when any
      question has it, otherwise every question of the file. */
  function Candidates(topic: Topic, payload: Payload): (r: seq<Question>)
    ensures DecodedPayload(payload).None? ==> r == []
    ensures DecodedPayload(payload).Some? ==>
              var all := DecodedPayload(payload).value;
              && multiset(r) <= multiset(all)
              && ((exists i :: 0 <= i < |all| && all[i].category == Category(topic))
                   ==> forall q :: q in r ==> q.category == Category(topic))
              && ((exists i :: 0 <= i < |all| && all[i].category == Category(topic))
                   ==> r == FilterCategory(all, Category(topic)) && r != [])
              && ((forall i :: 0 <= i < |all| ==> all[i].category != Category(topic))
                   ==> r == all)
  {
    match DecodedPayload(payload)
    case None => []
    case Some(all) =>
      var filtered := FilterCategory(all, Category(topic));
      if filtered == [] then all else filtered
  }

  /** Session size: 12 for true/false topics, 10 otherwise. */
  function SessionLimit(topic: Topic): nat {
    if IsMaruBatsu(topic) then 12 else 10
  }

  /** `Array(source.shuffled().prefix(limit))`. */
  function Draw(source: seq<Question>, limit: nat, picks: seq<nat>): (r: seq<Question>)
    ensures |r| == Min(limit, |source|)
    ensures multiset(r) <= multiset(source)
  {
    var shuffled := Shuffled(source, picks);
    PrefixMultiset(shuffled, Min(limit, |shuffled|));
    shuffled[..Min(limit, |shuffled|)]
  }

  /** Every drawn question sits at its own position of the source: a draw
      never repeats a source position. */
  lemma DrawPositions(source: seq<Question>, limit: nat, picks: seq<nat>)
    ensures var r := Draw(source, limit, picks);
            var pos := Shuffled<nat>(Range(|source|), picks)[..|r|];
            && Distinct(pos)
            && (forall k :: 0 <= k < |r| ==> pos[k] < |source| && r[k] == source[pos[k]])
  {
    var r := Draw(source, limit, picks);
    var p := Shuffled<nat>(Range(|source|), picks);
    ShuffledPositions(source, picks);
    DistinctPrefix(p, |r|);
  }

  /** `loadQuestions(for:)`, with `picks` standing for the random source. */
  function LoadQuestions(topic: Topic, payload: Payload, picks: seq<nat>): (r: seq<Question>)
    ensures payload.None? ==> r == []
    ensures payload.Some? && DecodeAll(payload.value).Failure? ==> r == []
    ensures |r| == Min(SessionLimit(topic), |Candidates(topic, payload)|)
    ensures multiset(r) <= multiset(Candidates(topic, payload))
  {
    Draw(Candidates(topic, payload), SessionLimit(topic), picks)
  }

  /** Every question of a session sits at its own position of the candidate
      list: a session never repeats a source position. */
  lemma LoadQuestionsPositions(topic: Topic, payload: Payload, picks: seq<nat>)
    ensures var c := Candidates(topic, payload);
            var r := LoadQuestions(topic, payload, picks);
            var pos := Shuffled<nat>(Range(|c|), picks)[..|r|];
            && Distinct(pos)
            && (forall k :: 0 <= k < |r| ==> pos[k] < |c| && r[k] == c[pos[k]])
  {
    DrawPositions(Candidates(topic, payload), SessionLimit(topic), picks);
  }

  /** `loadAllQuestions(for:)`: the category's questions in file order; all
      questions when none has the category and the file is not empty. */
  function LoadAllQuestions(topic: Topic, payload: Payload): (r: seq<Question>)
    ensures DecodedPayload(payload).None? ==> r == []
  {
    match DecodedPayload(payload)
    case None => []
    case Some(all) =>
      var filtered := FilterCategory(all, Category(topic));
      if filtered == [] && all != [] then all else filtered
  }

  /** The two loaders agree on what a topic holds: `loadAllQuestions` is the
      unshuffled, untruncated candidate set of `loadQuestions`. */
  lemma LoadAllIsCandidates(topic: Topic, payload: Payload, picks: seq<nat>)
    ensures LoadAllQuestions(topic, payload) == Candidates(topic, payload)
    ensures |LoadQuestions(topic, payload, picks)| <= |LoadAllQuestions(topic, payload)|
  {
  }

  /** The 15-question scenario: a choice topic whose fifteen questions all
      carry its category gives a session of ten distinct draws from them. */
  lemma FifteenQuestionScenario(payload: Payload, picks: seq<nat>)
    requires DecodedPayload(payload).Some?
    requires |DecodedPayload(payload).value| == 15
    requires forall i :: 0 <= i < 15 ==>
               DecodedPayload(payload).value[i].category == Category(Coordinator1)
    ensures |LoadQuestions(Coordinator1, payload, picks)| == 10
    ensures multiset(LoadQuestions(Coordinator1, payload, picks)) <= multiset(DecodedPayload(payload).value)
  {
    var all := DecodedPayload(payload).value;
    assert all[0].category == Category(Coordinator1);
    assert Candidates(Coordinator1, payload) == FilterCategory(all, Category(Coordinator1));
    assert multiset(FilterCategory(all, Category(Coordinator1))) == multiset(all);
  }

  /** The true/false scenario: a true/false topic whose twenty questions all
      carry its category and offer "◯" gives a session of twelve, each of
      which offers "◯". */
  lemma TwentyMaruBatsuScenario(payload: Payload, picks: seq<nat>)
    requires DecodedPayload(payload).Some?
    requires |DecodedPayload(payload).value| == 20
    requires forall i :: 0 <= i < 20 ==>
               && DecodedPayload(payload).value[i].category == Category(MarubatsuElderlyDisabled)
               && "◯" in DecodedPayload(payload).value[i].choices
    ensures |LoadQuestions(MarubatsuElderlyDisabled, payload, picks)| == 12
    ensures forall q :: q in LoadQuestions(MarubatsuElderlyDisabled, payload, picks) ==> "◯" in q.choices
  {
    var all := DecodedPayload(payload).value;
    var r := LoadQuestions(MarubatsuElderlyDisabled, payload, picks);
    assert all[0].category == Category(MarubatsuElderlyDisabled);
    assert Candidates(MarubatsuElderlyDisabled, payload) == FilterCategory(all, Category(MarubatsuElderlyDisabled));
    assert multiset(FilterCategory(all, Category(MarubatsuElderlyDisabled))) == multiset(all);
    forall q | q in r ensures "◯" in q.choices {
      assert multiset(r)[q] > 0;
      assert q in multiset(all);
    }
  }
}
