/** Replay assembly on the home screen: every topic's questions are loaded
    in catalog order, indexed by id (the first question seen for an id
    wins), and the stored ids are mapped through the index in their stored
    order, dropping ids that no longer resolve. */
module Replay {
  import opened Wrappers
  import opened Sequences
  import opened Questions
  import opened Catalog
  import opened Repository
  import WrongAnswers

  /** The screen a replay button leads to. */
  datatype ReplayScreen = NothingToReview | Session(questions: seq<Question>)

  /** Most questions a wrong-answer replay presents. */
  const WrongReplayCap: nat := 20

  /** The first question of `qs` with this id: the reference for the index. */
  function FirstWithId(qs: seq<Question>, id: string): (r: Option<Question>)
    ensures r.None? <==> forall i :: 0 <= i < |qs| ==> qs[i].id != id
    ensures r.Some? ==> exists i :: && 0 <= i < |qs| && qs[i] == r.value && r.value.id == id
                                    && forall j :: 0 <= j < i ==> qs[j].id != id
  {
    if qs == [] then None
    else if qs[0].id == id then Some(qs[0])
    else
      var r := FirstWithId(qs[1..], id);
      assert forall i :: 0 < i < |qs| ==> qs[i] == qs[1..][i - 1];
      r
  }

  /** Appending a question changes only the ids that had no question yet. */
  lemma {:induction false} FirstWithIdSnoc(qs: seq<Question>, q: Question, id: string)
    ensures FirstWithId(qs + [q], id) ==
              if FirstWithId(qs, id).Some? then FirstWithId(qs, id)
              else if q.id == id then Some(q)
              else None
  {
    if qs != [] {
      assert (qs + [q])[1..] == qs[1..] + [q];
      FirstWithIdSnoc(qs[1..], q, id);
    }
  }

  function Lookup(m: map<string, Question>, id: string): Option<Question> {
    if id in m then Some(m[id]) else None
  }

  /** The id index: the questions grouped by id, each group kept as its
      first question, so each id maps to the first question carrying it. */
  function Index(qs: seq<Question>): (m: map<string, Question>)
    ensures forall id :: Lookup(m, id) == FirstWithId(qs, id)
    decreases |qs|
  {
    if qs == [] then map[]
    else
      var init := qs[..|qs| - 1];
      var q := qs[|qs| - 1];
      var m := Index(init);
      assert qs == init + [q];
      var r := if q.id in m then m else m[q.id := q];
      assert forall id :: Lookup(r, id) == FirstWithId(qs, id) by {
        forall id ensures Lookup(r, id) == FirstWithId(qs, id) {
          FirstWithIdSnoc(init, q, id);
        }
      }
      r
  }

  /** Every topic's `loadAllQuestions`, concatenated in catalog order. */
  function AllQuestionsOf(topics: seq<Topic>, payloads: Topic -> Payload): seq<Question> {
    if topics == [] then []
    else LoadAllQuestions(topics[0], payloads(topics[0])) + AllQuestionsOf(topics[1..], payloads)
  }

  /** A question is loaded exactly when some listed topic's
      `loadAllQuestions` returns it. */
  lemma {:induction false} AllQuestionsOfMembers(topics: seq<Topic>, payloads: Topic -> Payload, q: Question)
    ensures q in AllQuestionsOf(topics, payloads) <==>
              exists i :: 0 <= i < |topics| && q in LoadAllQuestions(topics[i], payloads(topics[i]))
  {
    if topics != [] {
      AllQuestionsOfMembers(topics[1..], payloads, q);
      assert forall i :: 0 < i < |topics| ==> topics[i] == topics[1..][i - 1];
    }
  }

  /** The questions of every topic of `QuizTopic.allCases`, in that order:
      the list both replays index. */
  function AllQuestions(payloads: Topic -> Payload): seq<Question> {
    AllQuestionsOf(AllTopics, payloads)
  }

  /** Each stored id in order, kept as its question when the index has it. */
  function Project(ids: seq<string>, m: map<string, Question>): (r: seq<Question>)
    ensures |r| <= |ids|
    ensures r == [] <==> forall i :: 0 <= i < |ids| ==> ids[i] !in m
    ensures forall q :: q in r ==> q in m.Values
  {
    if ids == [] then []
    else
      var rest := Project(ids[1..], m);
      assert forall i :: 0 < i < |ids| ==> ids[i] == ids[1..][i - 1];
      if ids[0] in m then [m[ids[0]]] + rest else rest
  }

  /** Reference: the ids resolved by scanning `qs` directly, in id order. */
  function Resolved(ids: seq<string>, qs: seq<Question>): seq<Question> {
    if ids == [] then []
    else
      match FirstWithId(qs, ids[0])
      case Some(q) => [q] + Resolved(ids[1..], qs)
      case None => Resolved(ids[1..], qs)
  }

  /** Projecting through the index is resolving against the list: same
      questions, same order, unresolved ids dropped. */
  lemma {:induction false} ProjectIsResolved(ids: seq<string>, qs: seq<Question>)
    ensures Project(ids, Index(qs)) == Resolved(ids, qs)
  {
    if ids != [] {
      assert Lookup(Index(qs), ids[0]) == FirstWithId(qs, ids[0]);
      ProjectIsResolved(ids[1..], qs);
    }
  }

  /** Resolution distributes over concatenation of id lists, so stored
      order is kept. */
  lemma {:induction false} ResolvedAppend(a: seq<string>, b: seq<string>, qs: seq<Question>)
    ensures Resolved(a + b, qs) == Resolved(a, qs) + Resolved(b, qs)
  {
    if a == [] {
      assert a + b == b;
    } else {
      assert (a + b)[1..] == a[1..] + b;
      ResolvedAppend(a[1..], b, qs);
    }
  }

  /** Nothing resolves exactly when no stored id names a loaded question. */
  lemma {:induction false} ResolvedEmpty(ids: seq<string>, qs: seq<Question>)
    ensures Resolved(ids, qs) == [] <==> forall i :: 0 <= i < |ids| ==> FirstWithId(qs, ids[i]).None?
  {
    if ids != [] {
      ResolvedEmpty(ids[1..], qs);
      assert forall i :: 0 < i < |ids| ==> ids[i] == ids[1..][i - 1];
    }
  }

  /** The replay pipeline over the loaded questions `all`: the session is
      the resolved ids, truncated to `cap` when there is one. */
  function Assemble(ids: seq<string>, all: seq<Question>, cap: Option<nat>): (r: ReplayScreen)
    ensures ids == [] ==> r == NothingToReview
    ensures r == NothingToReview <==> forall i :: 0 <= i < |ids| ==> FirstWithId(all, ids[i]).None?
    ensures r == NothingToReview <==> Resolved(ids, all) == []
    ensures r.Session? && cap.None? ==> r.questions == Resolved(ids, all)
    ensures r.Session? && cap.Some? ==>
              && |r.questions| == Min(cap.value, |Resolved(ids, all)|)
              && r.questions == Resolved(ids, all)[..|r.questions|]
    ensures r.Session? ==> r.questions != [] || cap == Some(0)
  {
    if ids == [] then NothingToReview
    else
      var ordered := Project(ids, Index(all));
      ProjectIsResolved(ids, all);
      ResolvedEmpty(ids, all);
      if ordered == [] then NothingToReview
      else if cap.Some? then Session(ordered[..Min(cap.value, |ordered|)])
      else Session(ordered)
  }

  /** `startWrongQuiz` over the loaded questions `all` (the caller passes
      `AllQuestions`): no stored ids, or none resolving, leads to the
      nothing-to-review screen; otherwise the session is the first twenty
      resolved questions in stored (oldest-mistake-first) order. */
  function WrongReplay(wrongIds: seq<string>, all: seq<Question>): (r: ReplayScreen)
    ensures wrongIds == [] ==> r == NothingToReview
    ensures r == NothingToReview <==> Resolved(wrongIds, all) == []
    ensures r.Session? ==> 1 <= |r.questions|
    ensures r.Session? ==> |r.questions| == Min(WrongReplayCap, |Resolved(wrongIds, all)|)
    ensures r.Session? ==> r.questions == Resolved(wrongIds, all)[..|r.questions|]
  {
    Assemble(wrongIds, all, Some(WrongReplayCap))
  }

  /** The wrong-answer replay of a store against the loaded questions
      `all`: the first twenty questions that resolve, taking the stored ids
      oldest mistake first. */
  function WrongQuiz(store: WrongAnswers.Store, all: seq<Question>): (r: ReplayScreen)
    ensures store.records == [] ==> r == NothingToReview
    ensures r == NothingToReview <==>
              forall i :: 0 <= i < |store.records| ==> FirstWithId(all, store.records[i].id).None?
    ensures r.Session? ==> 1 <= |r.questions| <= WrongReplayCap
    ensures r.Session? ==>
              var resolved := Resolved(WrongAnswers.SortedWrongIds(store), all);
              && |r.questions| == Min(WrongReplayCap, |resolved|)
              && r.questions == resolved[..|r.questions|]
  {
    var ids := WrongAnswers.SortedWrongIds(store);
    ResolvedEmpty(ids, all);
    assert |ids| == |store.records| by {
      assert |multiset(ids)| == |multiset(WrongAnswers.Ids(store.records))|;
    }
    SameIdsResolve(ids, WrongAnswers.Ids(store.records), all);
    WrongReplay(ids, all)
  }

  /** `startWrongQuiz` end to end: the store's oldest-first ids resolved
      against every topic's questions. An empty store, or one whose ids all
      name unknown questions, leads to the nothing-to-review screen;
      otherwise the first twenty resolved questions are replayed, oldest
      mistake first. */
  function StartWrongQuiz(store: WrongAnswers.Store, payloads: Topic -> Payload): (r: ReplayScreen)
    ensures store.records == [] ==> r == NothingToReview
    ensures r == NothingToReview <==>
              forall i :: 0 <= i < |store.records| ==> FirstWithId(AllQuestions(payloads), store.records[i].id).None?
    ensures r.Session? ==> 1 <= |r.questions| <= WrongReplayCap
    ensures r.Session? ==>
              var resolved := Resolved(WrongAnswers.SortedWrongIds(store), AllQuestions(payloads));
              && |r.questions| == Min(WrongReplayCap, |resolved|)
              && r.questions == resolved[..|r.questions|]
  {
    WrongQuiz(store, AllQuestions(payloads))
  }

  /** Whether every id fails to resolve depends only on which ids there
      are, not on their order. */
  lemma SameIdsResolve(a: seq<string>, b: seq<string>, all: seq<Question>)
    requires multiset(a) == multiset(b)
    ensures (forall i :: 0 <= i < |a| ==> FirstWithId(all, a[i]).None?) <==>
            (forall i :: 0 <= i < |b| ==> FirstWithId(all, b[i]).None?)
  {
    forall i | 0 <= i < |a| ensures a[i] in multiset(b) {
      assert a[i] in multiset(a);
    }
    forall i | 0 <= i < |b| ensures b[i] in multiset(a) {
      assert b[i] in multiset(b);
    }
  }

  /** `startBookmarkQuiz`: the same pipeline without a size cap. The ids
      come from the bookmark store in its own order. */
  function BookmarkReplay(bookmarkIds: seq<string>, all: seq<Question>): (r: ReplayScreen)
    ensures bookmarkIds == [] ==> r == NothingToReview
    ensures r == NothingToReview <==> Resolved(bookmarkIds, all) == []
    ensures r.Session? ==> r.questions == Resolved(bookmarkIds, all) && r.questions != []
  {
    Assemble(bookmarkIds, all, None)
  }

  /** Two stored ids of which only the first names a loaded question give a
      one-question session, not the nothing-to-review screen. */
  lemma OneOfTwoResolves(all: seq<Question>, q1: string, q2: string)
    requires FirstWithId(all, q1).Some?
    requires FirstWithId(all, q2).None?
    ensures WrongReplay([q1, q2], all) == Session([FirstWithId(all, q1).value])
  {
    var q := FirstWithId(all, q1).value;
    assert [q1, q2][1..] == [q2];
    assert [q2][1..] == [];
    assert Resolved([q2], all) == [];
    assert Resolved([q1, q2], all) == [q];
    assert Resolved([q1, q2], all)[..1] == [q];
  }
}
