# Quiz bank core, modelled in Dafny

This project models the logic of a hazardous-materials exam quiz app and of
its question-text converter. The app is written in Swift and the converter
in Python. The model covers:

- **Question** (`questions.dfy`): the validating decoder. It accepts the
  legacy key pairs `question`/`text` and `answer_index`/`correct`, and the
  first failing check wins. The model also covers the encoder, the
  memberwise initialiser and the A–D answer labels.
- **Topic catalog** (`catalog.dfy`): the nineteen `QuizTopic` cases and the
  category, file name and true/false flag of each, plus the three
  `QuizChapter`s and the topics each lists.
- **Question repository** (`repository.dfy`, `shuffle.dfy`):
  - `loadQuestions` decodes a topic file all-or-nothing. It keeps the
    topic's category, or every question when none matches. It then
    shuffles and cuts the session to 12 questions for true/false topics
    and 10 otherwise.
  - `loadAllQuestions` does the same without shuffling or cutting.
  - The shuffle is the standard library's Fisher–Yates pass.
- **Wrong-answer store** (`wrong_store.dfy`):
  - `recordWrong`, `removeRecord` and `clearAll`, each followed by a save.
    `removeRecord` saves only when it removed something.
  - `load` and `save` against a key-value slot.
  - The oldest-mistake-first id order used for replay.
- **Replay assembly** (`replay.dfy`): the home screen's wrong-answer and
  bookmark replays.
  1. Every topic's questions are loaded in catalog order.
  2. They are indexed by id; the first question with an id wins.
  3. The stored ids are mapped through that index in stored order, and ids
     that no longer resolve are dropped.
  4. The result is either the nothing-to-review screen or a session. A
     wrong-answer session is capped at 20 questions.

  `WrongReplay` and `BookmarkReplay` take the loaded list and the stored
  ids as inputs. `StartWrongQuiz` composes the wrong-answer replay with
  the store's oldest-first ids and every topic's loaded questions.
- **Quiz screen** (`quiz_screen.dfy`): a state machine over the screen's
  state variables.
  - Answer taps take effect once per question. ◯/✕ buttons appear when a
    choice is "◯"; otherwise there is one button per choice.
  - Each effective tap makes exactly one call to the wrong-answer store.
  - The "next" button counts correct answers and advances or asks for the
    result screen.
- **Question-text converter** (`markers.dfy`, `text.dfy`,
  `class2_parser.dfy`):
  - `re.split` on the `第N問` markers.
  - The line-by-line block parser: question lines, `A.`–`D.` choices, the
    `正解` answer line and the `解説` explanation with its continuation
    lines.
  - The record ids `class2_q1`, `class2_q2`, and so on.
  - The cut of the parsed list into ten topic files of ten records each.
- **Helpers**: `wrappers.dfy` (Option, Result) and `sequences.dfy` (generic
  sequence facts).

Effects become parameters:

- A topic's bundled file is a `Payload`, the parsed JSON records or `None`
  when the file is missing or unreadable.
- The random generator is a sequence `picks` of values, and the clock is an
  `int` timestamp `now`.
- The persisted slot of the wrong-answer store is a field of the store
  value.
- The bookmark ids are an input sequence.

The decoder has no image field: `image_name` is not among its keys. A
present `id` is used as it is, even when empty.

## Model

| member | source | states |
|---|---|---|
| `Questions.Label` | Sources/Models/Question.swift:105-108 | the label is non-empty exactly for indices 0–3 and is at most one character |
| `Questions.LabelRoundTrip` | Sources/Models/Question.swift:105-108 | each of the four labels reads back to its own index, so labels and indices 0–3 correspond one to one |
| `Questions.Decode` | Sources/Models/Question.swift:43-92 | each error happens exactly when every earlier check passed and its own check fails, in source order (prompt, choices, count 2 or 4, answer index, range, label, explanation), and carries the input's values (the choice count; the index and count; the found and derived labels); success happens exactly when all checks pass; a decoded question is well-formed with label = A–D of its index; the legacy keys are read only when the primary key is absent; a missing id becomes the prompt and a missing category becomes 未分類 |
| `Questions.EncodeDecodeRoundTrip` | Sources/Models/Question.swift:94-103 | decoding an encoded question gives it back exactly when it is well-formed (2 or 4 choices, index in range, label matching the index); otherwise decoding fails |
| `Questions.DecodedRoundTrip` | Sources/Models/Question.swift:94-103 | every question the decoder accepts survives encode-then-decode unchanged |
| `Questions.MakeQuestion` | Sources/Models/Question.swift:25-41 | the initialiser stores its arguments; a missing label is derived from the index (A–D for 0–3, empty for any other index); a question it builds with a valid shape round-trips through encode/decode |
| `WrongAnswers.FindIndex` | Sources/Models/Question.swift:131 | finds the first record with the id; `None` exactly when no record carries it |
| `WrongAnswers.Load` | Sources/Models/Question.swift:161-167 | a missing or undecodable slot gives an empty store; a stored list is loaded as it is, in step with the slot |
| `WrongAnswers.Save` | Sources/Models/Question.swift:169-174 | after a save the slot holds exactly the in-memory records and one more write has happened |
| `WrongAnswers.RecordWrong` | Sources/Models/Question.swift:130-141 | an existing record is updated in place (count + 1, date = now, every other record unchanged); otherwise a record (id, now, 1) is appended; the result is saved; no duplicate id appears and counts stay positive |
| `WrongAnswers.RecordWrongNew` | Sources/Models/Question.swift:134-138 | a first mistake puts the record (id, now, 1) at the end, where the lookup finds it |
| `WrongAnswers.RecordWrongAgain` | Sources/Models/Question.swift:131-133 | a repeated mistake keeps the record at its position with count + 1 and the new date |
| `WrongAnswers.RecordWrongTwice` | Sources/Models/Question.swift:130-141 | two mistakes on a new id at t1 then t2 leave the record (id, t2, 2) |
| `WrongAnswers.RemoveAtKeepsValid` | Sources/Models/Question.swift:144-145 | removing one position of a duplicate-free list keeps it duplicate-free and removes that id |
| `WrongAnswers.RemoveRecord` | Sources/Models/Question.swift:143-148 | an absent id changes nothing and does not write; otherwise exactly the found record is removed and the list saved; afterwards the id is absent |
| `WrongAnswers.ClearAll` | Sources/Models/Question.swift:150-153 | the list is empty and the empty list is saved |
| `WrongAnswers.SortByDate` | Sources/Models/Question.swift:155-157 | the result is ordered by last-mistake date, oldest first, and is a permutation of the records |
| `WrongAnswers.SortedWrongIds` | Sources/Models/Question.swift:155-159 | the ids are a permutation of the stored ids, and the date of each id's record never decreases along the list |
| `WrongAnswers.RecordThenRemove` | Sources/Models/Question.swift:130-159 | a mistake followed by a correct answer leaves the id out of the replay order |
| `WrongAnswers.OperationsKeepSynced` | Sources/Models/Question.swift:130-174 | once the slot matches memory, every operation keeps it matching, so a reload gives the same records |
| `Catalog.AllTopicsEnumerates` | Sources/Models/QuizTopic.swift:4-23 | `allCases` lists each of the nineteen topics exactly once |
| `Catalog.CategoriesDistinct` | Sources/Models/QuizTopic.swift:25-51 | no two topics share a category, so topic ids are unique |
| `Catalog.FileNamesDistinct` | Sources/Models/QuizTopic.swift:53-75 | no two topics share a resource file |
| `Catalog.MaruBatsuByFileName` | Sources/Models/QuizTopic.swift:77-84 | a topic is true/false exactly when its file name starts with 'm'; those file names start with "marubatsu" |
| `Catalog.ChapterOf` | Sources/Models/QuizTopic.swift:96-121 | every topic is listed by exactly one chapter |
| `Catalog.ChaptersPartitionTopics` | Sources/Models/QuizTopic.swift:96-121 | no chapter lists a topic twice, and together the chapters list all nineteen |
| `Shuffle.Shuffled` | Sources/Repository/QuizRepository.swift:23 | the shuffle is a permutation: same length, same multiset |
| `Shuffle.ShuffledPositions` | Sources/Repository/QuizRepository.swift:23 | each shuffled element comes from its own source position, and no position is used twice |
| `Repository.DecodeAll` | Sources/Repository/QuizRepository.swift:16 | decoding succeeds exactly when every record decodes, giving record-by-record results; otherwise it fails with the error of the first failing record |
| `Repository.FilterCategory` | Sources/Repository/QuizRepository.swift:17 | keeps exactly the questions of the category, with their multiplicities; it is empty exactly when none has the category |
| `Repository.FilterCategorySingle` | Sources/Repository/QuizRepository.swift:17 | a single question is kept exactly when it has the category |
| `Repository.FilterCategoryAppend` | Sources/Repository/QuizRepository.swift:17 | filtering a concatenation is the concatenation of the filtered parts, so the kept questions stay in file order |
| `Repository.Candidates` | Sources/Repository/QuizRepository.swift:9-18 | a missing or undecodable file gives nothing; when some question has the topic's category the candidates are exactly the filtered list, non-empty and in file order; when none has it, every question is kept |
| `Repository.Draw` | Sources/Repository/QuizRepository.swift:23-25 | the draw has min(limit, source size) questions, all taken from the source without reuse (sub-multiset) |
| `Repository.DrawPositions` | Sources/Repository/QuizRepository.swift:23-25 | the drawn questions come from pairwise distinct source positions |
| `Repository.LoadQuestions` | Sources/Repository/QuizRepository.swift:8-30 | a missing or undecodable file gives an empty session; otherwise the session has min(12 or 10, candidate count) questions drawn without reuse from the candidates |
| `Repository.LoadQuestionsPositions` | Sources/Repository/QuizRepository.swift:23-25 | a session never repeats a candidate position |
| `Repository.LoadAllQuestions` | Sources/Repository/QuizRepository.swift:31-55 | a missing or undecodable file gives no questions |
| `Repository.LoadAllIsCandidates` | Sources/Repository/QuizRepository.swift:31-55 | `loadAllQuestions` returns exactly the candidate set `loadQuestions` draws from, so a session is never larger, whatever the shuffle draws |
| `Repository.FifteenQuestionScenario` | Sources/Repository/QuizRepository.swift:15-25 | fifteen correctly tagged questions of a choice topic give a session of ten drawn from them |
| `Repository.TwentyMaruBatsuScenario` | Sources/Repository/QuizRepository.swift:15-25 | twenty correctly tagged ◯/✕ questions of a true/false topic give a session of twelve, each offering "◯" |
| `Replay.FirstWithId` | Sources/Views/HomeView.swift:168 | the first question carrying the id, or `None` exactly when no question carries it |
| `Replay.Index` | Sources/Views/HomeView.swift:168 | the id index maps each id to the first question with that id (first wins on duplicates) |
| `Replay.AllQuestionsOfMembers` | Sources/Views/HomeView.swift:163-166 | a question is in the combined list exactly when some topic's `loadAllQuestions` returns it |
| `Replay.Project` | Sources/Views/HomeView.swift:170-175 | mapping ids through the index gives at most one question per id, only indexed questions, and nothing exactly when no id is indexed |
| `Replay.ProjectIsResolved` | Sources/Views/HomeView.swift:168-175 | mapping through the index equals resolving each id against the list directly, in id order, with unresolved ids dropped |
| `Replay.ResolvedAppend` | Sources/Views/HomeView.swift:170-175 | resolution distributes over concatenation, so stored order is kept |
| `Replay.ResolvedEmpty` | Sources/Views/HomeView.swift:177-180 | nothing resolves exactly when no stored id names a loaded question |
| `Replay.Assemble` | Sources/Views/HomeView.swift:154-184 | no ids, or none resolving, gives the nothing-to-review screen; otherwise the session is the resolved questions, cut to the first `cap` when there is a cap |
| `Replay.WrongReplay` | Sources/Views/HomeView.swift:154-184 | the nothing-to-review screen exactly when nothing resolves; otherwise the first min(20, resolved) questions in stored order |
| `Replay.WrongQuiz` | Sources/Views/HomeView.swift:154-184 | over the store's sorted ids: an empty store, or one none of whose ids names a loaded question, gives the nothing-to-review screen; otherwise the session is the first min(20, resolved count) questions resolved from the ids taken oldest mistake first, in that order |
| `Replay.StartWrongQuiz` | Sources/Views/HomeView.swift:154-184 | the same, against the questions of every topic in catalog order |
| `Replay.BookmarkReplay` | Sources/Views/HomeView.swift:220-250 | the nothing-to-review screen exactly when nothing resolves; otherwise every resolved question, uncapped, in stored order |
| `Replay.OneOfTwoResolves` | Sources/Views/HomeView.swift:170-183 | ids [q1, q2] with only q1 loaded give a one-question session, not the nothing-to-review screen |
| `QuizScreen.Initial` | Sources/Views/QuizView.swift:10-15 | the starting state satisfies the screen invariant, with nothing selected and no score |
| `QuizScreen.Load` | Sources/Views/QuizView.swift:233-239 | caller-given questions are used verbatim; otherwise the screen holds the repository's session for the topic |
| `QuizScreen.CallFor` | Sources/Views/QuizView.swift:128-132 | the store call names the current question and is a removal exactly when the answer is right |
| `QuizScreen.Answer` | Sources/Views/QuizView.swift:54-133 | a tap takes effect exactly when the list is non-empty, nothing is selected and the button is shown; it then selects the answer, shows the explanation and makes exactly one store call; otherwise nothing changes |
| `QuizScreen.AnswerIsOneShot` | Sources/Views/QuizView.swift:122-133 | after an effective tap, any further tap on the same question changes nothing and calls nothing |
| `QuizScreen.NextQuestion` | Sources/Views/QuizView.swift:241-253 | a correct selection adds one to the score; before the last question the screen advances with a clean slate; on the last question it requests the result screen |
| `QuizScreen.Step` | Sources/Views/QuizView.swift:172-212 | every user action keeps the screen invariant (explanation shown exactly when an answer is selected, index in range); a tap is handled by `Answer` and calls the store exactly when nothing is selected and the button is shown; "next" never calls the store, does nothing before an answer is selected and after one is `nextQuestion` |
| `QuizScreen.Run` | Sources/Views/QuizView.swift:54-253 | any sequence of actions keeps the invariant and the question list |
| `QuizScreen.CallsPerQuestion` | Sources/Views/QuizView.swift:54-253 | however the user taps, the store calls plus the open question equal the questions moved past plus the question open at the start, so each answered question makes exactly one call; the calls never outnumber the "next" presses plus the open question |
| `QuizScreen.CorrectBounded` | Sources/Views/QuizView.swift:241-244 | the score never grows by more than the number of "next" presses |
| `QuizScreen.Apply` | Sources/Views/QuizView.swift:62-68 | a wrong answer leaves the id recorded, a right answer leaves it absent, and store validity is kept |
| `QuizScreen.AnswerUpdatesStore` | Sources/Views/QuizView.swift:128-132 | after an effective answer, the question is on the wrong list exactly when the answer was wrong |
| `Text.Strip` | parse_class2_questions.py:48 | the result is the input without leading and trailing white space, a slice of it that neither starts nor ends with a space, and empty exactly for all-space input |
| `Text.StripIdempotent` | parse_class2_questions.py:32-48 | stripping an already stripped block or line changes nothing |
| `Text.SplitOn` | parse_class2_questions.py:40 | the pieces hold no separator and join back to the input |
| `Text.SplitJoin` | parse_class2_questions.py:40 | splitting a join of separator-free pieces gives the pieces back |
| `Text.AfterLast` | parse_class2_questions.py:62 | the longest suffix without the character, preceded by that character unless it is the whole string |
| `Text.AfterLastIsLastPiece` | parse_class2_questions.py:62 | that suffix is the last piece `split` produces |
| `Text.NatToString` | parse_class2_questions.py:83 | decimal digits without a leading zero |
| `Text.NatToStringRoundTrip` | parse_class2_questions.py:83 | reading the digits back gives the number |
| `Text.NatToStringInjective` | parse_class2_questions.py:83 | different numbers give different strings |
| `Markers.MarkerAt` | parse_class2_questions.py:35 | a match ends where a whole `第\d+問` ends; no match means no marker starts there |
| `Markers.Parts` | parse_class2_questions.py:27 | the split alternates marker-free text and markers, starts and ends with text, and concatenates back to the input |
| `Class2.ChoiceText` | parse_class2_questions.py:51-59 | a choice text starts with its letter and ". " |
| `Class2.StepFails` | parse_class2_questions.py:60-64 | one line fails exactly when it is a `正解` line with nothing after the colon |
| `Class2.StepChoices` | parse_class2_questions.py:51-59 | a line adds its choice text when it is a choice line, and nothing otherwise |
| `Class2.StepQuestion` | parse_class2_questions.py:51-72 | a line adds to the question text only in question mode and only as an unprefixed line; the mode leaves "question" exactly on an A, 正解 or 解説 line |
| `Class2.StepLabel` | parse_class2_questions.py:60-64 | a `正解` line sets the label to the first character of its tail; other lines keep it |
| `Class2.StepExplanation` | parse_class2_questions.py:65-72 | in explanation mode, a line that does not change the mode appends its text on a new line |
| `Class2.FoldFails` | parse_class2_questions.py:47-64 | a block fails exactly when one of its lines is a `正解` line with an empty label |
| `Class2.FoldChoices` | parse_class2_questions.py:47-59 | the choices are every choice line of the block, in order, whatever the mode |
| `Class2.FoldQuestionLines` | parse_class2_questions.py:45-72 | the question text is the unprefixed lines before the first mode-changing line |
| `Class2.QuestionLinesFrozen` | parse_class2_questions.py:68-70 | once the mode has left "question", no later line reaches the question text |
| `Class2.FoldLabel` | parse_class2_questions.py:60-64 | the label is the first character of the last `正解` line's tail, or unchanged when there is none |
| `Class2.FoldExplanation` | parse_class2_questions.py:65-72 | in explanation mode, until the mode changes, every unprefixed line is appended on a new line |
| `Class2.ExplanationOfBlock` | parse_class2_questions.py:65-72 | when the last mode-changing line is a `解説` line, the explanation is that line's tail followed by every later unprefixed line |
| `Class2.AnswerIndexOf` | parse_class2_questions.py:79-80 | an A–D label maps to its index, anything else to 0 |
| `Class2.ParseBody` | parse_class2_questions.py:40-92 | a block parses exactly when it has no empty `正解` label; then the id is `class2_q` + number, the category is "temp", the label is the first character of the last `正解` line's tail ("" without such a line), the choices are every choice line of the block, the question text is its leading unprefixed lines joined by newlines, and the index is the label's position in A–D (0 otherwise) |
| `Class2.ParseBlocksEach` | parse_class2_questions.py:76-92 | a list of blocks parses exactly when each block does, one record per block, the k-th numbered k + 1 after those before |
| `Class2.ParseParts` | parse_class2_questions.py:31-37 | the loop skips exactly the blank parts and the parts that start with a marker |
| `Class2.KeptAreBlocks` | parse_class2_questions.py:27-37 | the parts the loop keeps are exactly the non-blank texts between markers, and before the first |
| `Class2.ParseQuestionsBlocks` | parse_class2_questions.py:24-94 | `parse_questions` parses exactly those texts, in order |
| `Class2.ParseQuestionsIds` | parse_class2_questions.py:82-92 | one record per non-blank text, the k-th with id `class2_q` + (k + 1); failure exactly when some text has an empty label |
| `Class2.IdsDistinct` | parse_class2_questions.py:83 | the record ids are pairwise distinct |
| `Class2.ParsedDecodes` | parse_class2_questions.py:82-91 | a converted record is accepted by the app's decoder exactly when it has two or four choices and an A–D label within them; then it decodes field for field |
| `Class2.FileTopicsTile` | parse_class2_questions.py:11-22 | the ten topic ranges are the blocks of ten 1–10, …, 91–100 |
| `Class2.Slice` | parse_class2_questions.py:106 | Python slicing: bounds past the end are clamped, and an empty range gives nothing |
| `Class2.TopicFile` | parse_class2_questions.py:103-114 | a topic file holds its range of the parsed list, clamped, each record with the topic's name as category |
| `Class2.RecordFile` | parse_class2_questions.py:103-114 | each of the first hundred records goes to the file of its block of ten, at its place there, and to no other file |

## Left out

- The SwiftUI rendering (layout, colours, opacity, navigation titles), the
  result screen and the chapter colours are presentation only.
- Bundle lookup, file reading and JSON parsing are replaced by the
  `Payload` value.
- A key present with a value of the wrong JSON type is not modelled. It
  would also fail decoding; the model treats a JSON null like an absent key.
- The `UserDefaults` slot stands in as a store field. An encoder failure on
  save is not modelled, because records always encode.
- The shuffle's random generator is the parameter `picks`. That the
  permutation is uniformly distributed is a probabilistic property outside
  the model.
- `Date()` is the parameter `now`; dates are integer timestamps.
- The default `id` of the memberwise initialiser, a fresh UUID, is supplied
  by the caller.
- The bookmark store is not part of this model. Its ids reach the bookmark
  replay as an input sequence.
- The screen reloads its questions on every `onAppear`. The model loads
  once, when the screen starts.
- Swift's 64-bit `Int` overflow of `timesWrong` and of the score is not
  modelled; counts are unbounded.
- `WrongAnswers.SortedWrongIds`: for records with equal dates, the source's
  sort fixes no order. The model's insertion sort keeps list order, and the
  contract states only the date order and the permutation.
- The converter's file reading, `print` output, directory creation and
  `json.dump` formatting are I/O. So is the always-null `image_name` key.
- The converter stamps the category into the shared dictionaries in place.
  Each record lies in at most one topic range, so this aliasing changes
  nothing the model would show.
- Swift compares `String`s by Unicode canonical equivalence; the model
  compares code points. A category, id or "◯" written in a different
  normal form (a decomposed デ, say) matches in the app but not in the
  model. This affects the category filter, the store's id lookup, the
  replay index and the ◯/✕ button test.
- The repository's `print` diagnostics for a missing file, a category
  fall-back and a decoding error are output only.
- `\d` in the marker expression also matches Unicode decimal digits beyond
  ASCII and full-width forms. The model accepts those two ranges only.
- `Class2.ParseBody`: its contract does not state the explanation field.
  `Class2.ExplanationOfBlock` states it for blocks whose last mode-changing
  line is a `解説` line. For other blocks the explanation is not
  characterised.
- `Repository.LoadAllQuestions`: its own contract covers only the failure
  paths. Its value is stated through `Repository.LoadAllIsCandidates`.
