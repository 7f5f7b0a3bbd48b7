/** The question-text converter: it cuts the raw text at the `第N問`
    markers, parses each remaining block line by line into question text,
    choices, answer label and explanation, numbers the records
    `class2_q1`, `class2_q2`, ..., and writes consecutive slices of them
    to the topic files with the topic's name as category. */
module Class2 {
  import opened Wrappers
  import opened Questions
  import opened Text
  import opened Markers
  import opened Sequences

  /** What the block parser is reading. */
  datatype Mode = QuestionMode | ChoicesMode | AnswerMode | ExplanationMode

  /** What a stripped, non-empty line is, recognised in this order. */
  datatype LineKind = ChoiceLine(letter: char) | AnswerLine | ExplanationLine | OtherLine

  /** The block parser's variables. */
  datatype BodyState = BodyState(
    questionLines: seq<string>,
    choices: seq<string>,
    answerLabel: string,
    explanation: string,
    mode: Mode)

  /** An `answer_label[0]` on an empty label raises, which ends the run. */
  datatype ParseError = EmptyAnswerLabel(line: string)

  /** One parsed question as written to the topic files. The `image_name`
      key, always null, is not represented. */
  datatype ParsedQuestion = ParsedQuestion(
    id: string,
    category: string,
    question: string,
    choices: seq<string>,
    answerIndex: nat,
    answerLabel: string,
    explanation: string)

  /** Category of every record before the topic slices stamp theirs. */
  const Placeholder: string := "temp"

  /** Prefix of every record id. */
  const IdPrefix: string := "class2_q"

  /** `line.startswith(letter + ".")`, `+ " "` or `+ "．"`. */
  predicate ChoicePrefix(line: string, letter: char) {
    [letter, '.'] <= line || [letter, ' '] <= line || [letter, '．'] <= line
  }

  function Classify(line: string): LineKind {
    if ChoicePrefix(line, 'A') then ChoiceLine('A')
    else if ChoicePrefix(line, 'B') then ChoiceLine('B')
    else if ChoicePrefix(line, 'C') then ChoiceLine('C')
    else if ChoicePrefix(line, 'D') then ChoiceLine('D')
    else if "正解：" <= line || "正解:" <= line then AnswerLine
    else if "解説：" <= line || "解説:" <= line then ExplanationLine
    else OtherLine
  }

  /** Lines that change the mode: the A choice, the answer and the
      explanation line. */
  predicate Switches(k: LineKind) {
    k == ChoiceLine('A') || k == AnswerLine || k == ExplanationLine
  }

  /** The text after the last full-width colon, then after the last ASCII
      colon in that, with surrounding whitespace stripped. */
  function ColonTail(line: string): string {
    Strip(AfterLast(AfterLast(line, '：'), ':'))
  }

  /** The choice text: the letter, a dot and a space, then the line after
      its two-character prefix with surrounding whitespace stripped. */
  function ChoiceText(line: string, letter: char): (r: string)
    requires ChoicePrefix(line, letter)
    ensures |r| >= 3 && r[0] == letter && r[1..3] == ". "
  {
    [letter] + ". " + Strip(line[2..])
  }

  /** The state before the first line of a block. */
  const Start: BodyState := BodyState([], [], "", "", QuestionMode)

  /** One raw line of a block. */
  function Step(st: BodyState, raw: string): Result<BodyState, ParseError> {
    var line := Strip(raw);
    if line == [] then Success(st)
    else
      match Classify(line)
      case ChoiceLine(c) =>
        Success(st.(choices := st.choices + [ChoiceText(line, c)],
                    mode := if c == 'A' then ChoicesMode else st.mode))
      case AnswerLine =>
        var tail := ColonTail(line);
        if tail == [] then Failure(EmptyAnswerLabel(line))
        else Success(st.(answerLabel := [tail[0]], mode := AnswerMode))
      case ExplanationLine =>
        Success(st.(explanation := ColonTail(line), mode := ExplanationMode))
      case OtherLine =>
        if st.mode == QuestionMode then Success(st.(questionLines := st.questionLines + [line]))
        else if st.mode == ExplanationMode then Success(st.(explanation := st.explanation + "\n" + line))
        else Success(st)
  }

  /** The block's lines, one after the other; the first failure stops. */
  function Fold(st: BodyState, lines: seq<string>): Result<BodyState, ParseError>
    decreases |lines|
  {
    if lines == [] then Success(st)
    else
      match Step(st, lines[0])
      case Failure(e) => Failure(e)
      case Success(t) => Fold(t, lines[1..])
  }

  // ---------------------------------------------------------------------
  // Reference readings of a block, one per field.

  /** The kind of a raw line once stripped; `None` for a blank line. */
  function KindOf(raw: string): Option<LineKind> {
    var line := Strip(raw);
    if line == [] then None else Some(Classify(line))
  }

  /** A `正解` line whose label text is empty. */
  predicate BadAnswerLine(raw: string) {
    KindOf(raw) == Some(AnswerLine) && ColonTail(Strip(raw)) == []
  }

  /** The choice a raw line contributes: its choice text, or nothing. */
  function ChoiceOf(raw: string): seq<string> {
    match KindOf(raw)
    case Some(ChoiceLine(c)) => [ChoiceText(Strip(raw), c)]
    case _ => []
  }

  /** Every choice line, as choice text, in order of appearance. */
  function ChoicesOf(lines: seq<string>): seq<string> {
    if lines == [] then [] else ChoiceOf(lines[0]) + ChoicesOf(lines[1..])
  }

  /** The unprefixed lines before the first line that changes the mode. */
  function LeadingText(lines: seq<string>): seq<string> {
    if lines == [] then []
    else
      match KindOf(lines[0])
      case None => LeadingText(lines[1..])
      case Some(k) =>
        if Switches(k) then []
        else if k == OtherLine then [Strip(lines[0])] + LeadingText(lines[1..])
        else LeadingText(lines[1..])
  }

  /** The label text of the last `正解` line, read from the end. */
  function LastAnswerTail(lines: seq<string>): Option<string> {
    if lines == [] then None
    else if KindOf(lines[|lines| - 1]) == Some(AnswerLine) then Some(ColonTail(Strip(lines[|lines| - 1])))
    else LastAnswerTail(lines[..|lines| - 1])
  }

  /** `"\n" + line` for every unprefixed line. */
  function Continuation(lines: seq<string>): string {
    if lines == [] then []
    else (if KindOf(lines[0]) == Some(OtherLine) then "\n" + Strip(lines[0]) else []) + Continuation(lines[1..])
  }

  // What one line does to each variable, by the line's kind: one lemma per
  // variable, so that each fold lemma sees only the fact it needs.

  lemma StepFails(st: BodyState, raw: string)
    ensures Step(st, raw).Failure? <==> BadAnswerLine(raw)
  {
    var line := Strip(raw);
    if line != [] {
      match Classify(line)
      case ChoiceLine(c) =>
      case AnswerLine =>
      case ExplanationLine =>
      case OtherLine =>
    }
  }

  lemma StepChoices(st: BodyState, raw: string)
    requires Step(st, raw).Success?
    ensures Step(st, raw).value.choices == st.choices + ChoiceOf(raw)
  {
    var line := Strip(raw);
    if line != [] {
      match Classify(line)
      case ChoiceLine(c) =>
      case AnswerLine =>
      case ExplanationLine =>
      case OtherLine =>
    }
  }

  lemma StepQuestion(st: BodyState, raw: string)
    requires Step(st, raw).Success?
    ensures var t := Step(st, raw).value;
            && t.questionLines == st.questionLines +
                 (if st.mode == QuestionMode && KindOf(raw) == Some(OtherLine) then [Strip(raw)] else [])
            && (t.mode == QuestionMode <==>
                 st.mode == QuestionMode && (KindOf(raw).None? || !Switches(KindOf(raw).value)))
  {
    var line := Strip(raw);
    if line != [] {
      match Classify(line)
      case ChoiceLine(c) =>
      case AnswerLine =>
      case ExplanationLine =>
      case OtherLine =>
    }
  }

  lemma StepLabel(st: BodyState, raw: string)
    requires Step(st, raw).Success?
    ensures KindOf(raw) == Some(AnswerLine) ==> Step(st, raw).value.answerLabel == [ColonTail(Strip(raw))[0]]
    ensures KindOf(raw) != Some(AnswerLine) ==> Step(st, raw).value.answerLabel == st.answerLabel
  {
    var line := Strip(raw);
    if line != [] {
      match Classify(line)
      case ChoiceLine(c) =>
      case AnswerLine =>
      case ExplanationLine =>
      case OtherLine =>
    }
  }

  lemma StepExplanation(st: BodyState, raw: string)
    requires st.mode == ExplanationMode && (KindOf(raw).None? || !Switches(KindOf(raw).value))
    ensures Step(st, raw).Success?
    ensures var t := Step(st, raw).value;
            && t.mode == ExplanationMode
            && t.explanation == st.explanation + (if KindOf(raw) == Some(OtherLine) then "\n" + Strip(raw) else [])
  {
    var line := Strip(raw);
    if line != [] {
      match Classify(line)
      case ChoiceLine(c) =>
      case AnswerLine =>
      case ExplanationLine =>
      case OtherLine =>
    }
  }

  /** Some line of the block is a `正解` line with an empty label. */
  predicate HasBadAnswerLine(lines: seq<string>) {
    lines != [] && (BadAnswerLine(lines[0]) || HasBadAnswerLine(lines[1..]))
  }

  /** A block fails exactly when it holds a `正解` line with nothing after
      the colon. */
  lemma {:induction false} FoldFails(st: BodyState, lines: seq<string>)
    ensures Fold(st, lines).Failure? <==> HasBadAnswerLine(lines)
    decreases |lines|
  {
    if lines != [] {
      StepFails(st, lines[0]);
      match Step(st, lines[0])
      case Failure(_) =>
      case Success(t) =>
        FoldFails(t, lines[1..]);
    }
  }

  /** The choices are every choice line in order, whatever the mode. */
  lemma {:induction false} FoldChoices(st: BodyState, lines: seq<string>)
    requires Fold(st, lines).Success?
    ensures Fold(st, lines).value.choices == st.choices + ChoicesOf(lines)
    decreases |lines|
  {
    if lines != [] {
      StepFails(st, lines[0]);
      StepChoices(st, lines[0]);
      var t := Step(st, lines[0]).value;
      assert Fold(st, lines) == Fold(t, lines[1..]);
      FoldChoices(t, lines[1..]);
      ConcatAssoc(st.choices, ChoiceOf(lines[0]), ChoicesOf(lines[1..]));
    }
  }

  /** The question text is the unprefixed lines seen before the mode first
      changes; later unprefixed lines never reach it. */
  lemma {:induction false} FoldQuestionLines(st: BodyState, lines: seq<string>)
    requires Fold(st, lines).Success?
    ensures Fold(st, lines).value.questionLines ==
              st.questionLines + (if st.mode == QuestionMode then LeadingText(lines) else [])
    decreases |lines|
  {
    if lines != [] {
      StepFails(st, lines[0]);
      StepQuestion(st, lines[0]);
      var t := Step(st, lines[0]).value;
      assert Fold(st, lines) == Fold(t, lines[1..]);
      FoldQuestionLines(t, lines[1..]);
      if st.mode == QuestionMode {
        if KindOf(lines[0]).Some? && Switches(KindOf(lines[0]).value) {
          QuestionLinesFrozen(t, lines[1..]);
        } else {
          var piece := if KindOf(lines[0]) == Some(OtherLine) then [Strip(lines[0])] else [];
          assert LeadingText(lines) == piece + LeadingText(lines[1..]);
          ConcatAssoc(st.questionLines, piece, LeadingText(lines[1..]));
        }
      }
    }
  }

  /** Once the mode has left "question" it never returns. */
  lemma {:induction false} QuestionLinesFrozen(st: BodyState, lines: seq<string>)
    requires st.mode != QuestionMode
    requires Fold(st, lines).Success?
    ensures Fold(st, lines).value.questionLines == st.questionLines
    decreases |lines|
  {
    if lines != [] {
      StepFails(st, lines[0]);
      StepQuestion(st, lines[0]);
      QuestionLinesFrozen(Step(st, lines[0]).value, lines[1..]);
    }
  }

  /** The label is the first character of the last `正解` line's text;
      without such a line it is what it was. */
  lemma {:induction false} FoldLabel(st: BodyState, lines: seq<string>)
    requires Fold(st, lines).Success?
    ensures LastAnswerTail(lines).Some? ==>
              LastAnswerTail(lines).value != [] &&
              Fold(st, lines).value.answerLabel == [LastAnswerTail(lines).value[0]]
    ensures LastAnswerTail(lines).None? ==> Fold(st, lines).value.answerLabel == st.answerLabel
    decreases |lines|
  {
    if lines != [] {
      var init := lines[..|lines| - 1];
      var last := lines[|lines| - 1];
      SnocSplit(lines);
      FoldSnoc(st, init, last);
      FoldLabel(st, init);
      StepLabel(Fold(st, init).value, last);
    }
  }

  /** Folding a block is folding all but its last line, then the last. */
  lemma {:induction false} FoldSnoc(st: BodyState, init: seq<string>, last: string)
    ensures Fold(st, init + [last]) ==
              match Fold(st, init)
              case Failure(e) => Failure(e)
              case Success(t) => Step(t, last)
    decreases |init|
  {
    if init == [] {
      assert (init + [last])[1..] == [];
    } else {
      assert (init + [last])[0] == init[0];
      assert (init + [last])[1..] == init[1..] + [last];
      match Step(st, init[0])
      case Failure(_) =>
      case Success(t) => FoldSnoc(t, init[1..], last);
    }
  }

  /** In explanation mode, and until the mode changes again, every
      unprefixed line is appended to the explanation on a line of its own. */
  lemma {:induction false} FoldExplanation(st: BodyState, lines: seq<string>)
    requires st.mode == ExplanationMode
    requires forall k :: 0 <= k < |lines| ==> KindOf(lines[k]).None? || !Switches(KindOf(lines[k]).value)
    ensures Fold(st, lines).Success?
    ensures Fold(st, lines).value.explanation == st.explanation + Continuation(lines)
    decreases |lines|
  {
    if lines != [] {
      var rest := lines[1..];
      forall k | 0 <= k < |rest| ensures KindOf(rest[k]).None? || !Switches(KindOf(rest[k]).value) {
        assert rest[k] == lines[k + 1];
      }
      var t := ExplanationStep(st, lines[0]);
      FoldExplanation(t, rest);
      assert Fold(st, lines) == Fold(t, rest);
      ContinuationCons(lines);
      ConcatAssoc(st.explanation, Continuation([lines[0]]), Continuation(rest));
    }
  }

  lemma ContinuationCons(lines: seq<string>)
    requires lines != []
    ensures Continuation(lines) == Continuation([lines[0]]) + Continuation(lines[1..])
  {
    assert [lines[0]][1..] == [];
  }

  /** One line in explanation mode that does not change the mode. */
  function ExplanationStep(st: BodyState, raw: string): (t: BodyState)
    requires st.mode == ExplanationMode
    requires KindOf(raw).None? || !Switches(KindOf(raw).value)
    ensures Step(st, raw) == Success(t)
    ensures t.mode == ExplanationMode
    ensures t.explanation == st.explanation + Continuation([raw])
  {
    StepExplanation(st, raw);
    Step(st, raw).value
  }

  /** Folding a concatenation folds the first part, then the second. */
  lemma {:induction false} FoldAppend(st: BodyState, a: seq<string>, b: seq<string>)
    ensures Fold(st, a + b) ==
              match Fold(st, a)
              case Failure(e) => Failure(e)
              case Success(t) => Fold(t, b)
    decreases |a|
  {
    if a == [] {
      assert a + b == b;
    } else {
      assert (a + b)[0] == a[0];
      assert (a + b)[1..] == a[1..] + b;
      match Step(st, a[0])
      case Failure(_) =>
      case Success(t) => FoldAppend(t, a[1..], b);
    }
  }

  /** A `解説` line replaces the explanation by its text after the last
      colon and enters explanation mode. */
  lemma StepExplanationLine(st: BodyState, raw: string)
    requires KindOf(raw) == Some(ExplanationLine)
    ensures Step(st, raw) == Success(st.(explanation := ColonTail(Strip(raw)), mode := ExplanationMode))
  {
  }

  /** The explanation of a block whose last mode-changing line is a `解説`
      line: that line's text after the last colon, then every later
      unprefixed line on a line of its own. */
  lemma ExplanationOfBlock(st: BodyState, lines: seq<string>, k: nat)
    requires k < |lines| && KindOf(lines[k]) == Some(ExplanationLine)
    requires forall j :: k < j < |lines| ==> KindOf(lines[j]).None? || !Switches(KindOf(lines[j]).value)
    requires Fold(st, lines).Success?
    ensures Fold(st, lines).value.explanation == ColonTail(Strip(lines[k])) + Continuation(lines[k + 1..])
  {
    var front := lines[..k];
    var rest := lines[k + 1..];
    SplitAt(lines, k);
    FoldAppend(st, front, [lines[k]] + rest);
    var t := Fold(st, front).value;
    StepExplanationLine(t, lines[k]);
    var u := Step(t, lines[k]).value;
    assert Fold(t, [lines[k]] + rest) == Fold(u, rest);
    forall j | 0 <= j < |rest| ensures KindOf(rest[j]).None? || !Switches(KindOf(rest[j]).value) {
      assert rest[j] == lines[k + 1 + j];
    }
    FoldExplanation(u, rest);
  }

  // ---------------------------------------------------------------------
  // Records.

  /** `mapper.get(label, 0)`: the label's position in A-D, 0 otherwise. */
  function AnswerIndexOf(tag: string): (r: nat)
    ensures r < 4
    ensures IndexOfLabel(tag).Some? ==> Label(r) == tag
    ensures IndexOfLabel(tag).None? ==> r == 0
  {
    IndexOfLabel(tag).GetOr(0)
  }

  /** The record of one block; `number` is its 1-based position. */
  function ParseBody(body: string, number: nat): (r: Result<ParsedQuestion, ParseError>)
    ensures r.Success? <==> !HasBadAnswerLine(SplitOn(body, '\n'))
    ensures r.Success? ==>
              && r.value.id == IdPrefix + NatToString(number)
              && r.value.category == Placeholder
              && r.value.choices == ChoicesOf(SplitOn(body, '\n'))
              && r.value.question == Join(LeadingText(SplitOn(body, '\n')), "\n")
              && r.value.answerIndex == AnswerIndexOf(r.value.answerLabel)
              && |r.value.answerLabel| <= 1
    ensures r.Success? ==>
              r.value.answerLabel ==
                match LastAnswerTail(SplitOn(body, '\n'))
                case Some(tail) => (if tail == [] then "" else [tail[0]])
                case None => ""
  {
    var lines := SplitOn(body, '\n');
    FoldFails(Start, lines);
    match Fold(Start, lines)
    case Failure(e) => Failure(e)
    case Success(st) =>
      FoldChoices(Start, lines);
      FoldQuestionLines(Start, lines);
      FoldLabel(Start, lines);
      assert st.questionLines == LeadingText(lines) by {
        assert Start.questionLines + LeadingText(lines) == LeadingText(lines);
      }
      assert st.choices == ChoicesOf(lines) by {
        assert Start.choices + ChoicesOf(lines) == ChoicesOf(lines);
      }
      Success(ParsedQuestion(
        IdPrefix + NatToString(number), Placeholder, Join(st.questionLines, "\n"),
        st.choices, AnswerIndexOf(st.answerLabel), st.answerLabel, st.explanation))
  }

  /** The blocks the loop parses: every part that is not blank once stripped
      and does not start with a marker, stripped. */
  function Kept(parts: seq<string>): seq<string> {
    if parts == [] then []
    else
      var p := Strip(parts[0]);
      if p == [] || MarkerAt(p, 0).Some? then Kept(parts[1..]) else [p] + Kept(parts[1..])
  }

  /** A parser of one block given its 1-based number; the converter uses
      `ParseBody`. */
  type BlockParser = (string, nat) -> Result<ParsedQuestion, ParseError>

  /** The records of a list of blocks, numbered on from `count`; the first
      failing block fails the list. */
  function ParseBlocks(parse: BlockParser, blocks: seq<string>, count: nat): Result<seq<ParsedQuestion>, ParseError> {
    if blocks == [] then Success([])
    else
      match parse(blocks[0], count + 1)
      case Failure(e) => Failure(e)
      case Success(q) =>
        match ParseBlocks(parse, blocks[1..], count + 1)
        case Failure(e) => Failure(e)
        case Success(rest) => Success([q] + rest)
  }

  /** A list of blocks parses exactly when every block does, into one
      record per block, the k-th numbered `count + k + 1`. */
  lemma {:induction false} ParseBlocksEach(parse: BlockParser, blocks: seq<string>, count: nat)
    ensures ParseBlocks(parse, blocks, count).Success? <==>
              forall k :: 0 <= k < |blocks| ==> parse(blocks[k], count + k + 1).Success?
    ensures ParseBlocks(parse, blocks, count).Success? ==>
              && |ParseBlocks(parse, blocks, count).value| == |blocks|
              && forall k :: 0 <= k < |blocks| ==>
                   parse(blocks[k], count + k + 1) == Success(ParseBlocks(parse, blocks, count).value[k])
    decreases |blocks|
  {
    if blocks != [] {
      var tail := blocks[1..];
      ParseBlocksEach(parse, tail, count + 1);
      assert forall k :: 0 < k < |blocks| ==> blocks[k] == tail[k - 1];
      if parse(blocks[0], count + 1).Success? && ParseBlocks(parse, tail, count + 1).Failure? {
        var k :| 0 <= k < |tail| && parse(tail[k], count + 1 + k + 1).Failure?;
        assert parse(blocks[k + 1], count + (k + 1) + 1).Failure?;
      }
    }
  }

  /** The loop over the parts of `re.split`, skipping blank parts and
      markers; `count` records precede the parts. */
  function ParseParts(parse: BlockParser, parts: seq<string>, count: nat): (r: Result<seq<ParsedQuestion>, ParseError>)
    ensures r == ParseBlocks(parse, Kept(parts), count)
  {
    if parts == [] then Success([])
    else
      var p := Strip(parts[0]);
      if p == [] || MarkerAt(p, 0).Some? then ParseParts(parse, parts[1..], count)
      else
        assert Kept(parts) == [p] + Kept(parts[1..]);
        assert Kept(parts)[1..] == Kept(parts[1..]);
        match parse(p, count + 1)
        case Failure(e) => Failure(e)
        case Success(q) =>
          match ParseParts(parse, parts[1..], count + 1)
          case Failure(e) => Failure(e)
          case Success(rest) => Success([q] + rest)
  }

  /** `parse_questions(text)`. */
  function ParseQuestions(text: string): Result<seq<ParsedQuestion>, ParseError> {
    ParseParts(ParseBody, Parts(text), 0)
  }

  /** The text of each block between markers (and before the first),
      stripped, when it is not blank. */
  function Blocks(parts: seq<string>): seq<string>
    decreases |parts|
  {
    if parts == [] then []
    else
      var p := Strip(parts[0]);
      var rest := if |parts| >= 2 then Blocks(parts[2..]) else [];
      if p == [] then rest else [p] + rest
  }

  /** A marker is its own strip and starts with a marker. */
  lemma MarkerKept(m: string)
    requires IsMarker(m)
    ensures Strip(m) == m && MarkerAt(m, 0).Some?
  {
    assert LeadingSpaces(m) == 0;
    assert !IsSpace(m[|m| - 1]);
    assert m[0..|m|] == m;
  }

  /** Stripping marker-free text never brings a marker to the front. */
  lemma FreeStripped(b: string)
    requires MarkerFree(b)
    ensures Strip(b) == [] || MarkerAt(Strip(b), 0).None?
  {
    var p := Strip(b);
    var lead := LeadingSpaces(b);
    forall e | 0 < e <= |p| ensures !IsMarker(p[0..e]) {
      assert p[0..e] == b[lead..lead + e];
    }
  }

  /** The parser's skip test removes exactly the markers and the blank
      parts: the blocks it parses are the text between markers. */
  lemma {:induction false} KeptAreBlocks(parts: seq<string>)
    requires |parts| % 2 == 1
    requires forall k :: 0 <= k < |parts| && k % 2 == 1 ==> IsMarker(parts[k])
    requires forall k :: 0 <= k < |parts| && k % 2 == 0 ==> MarkerFree(parts[k])
    ensures Kept(parts) == Blocks(parts)
    decreases |parts|
  {
    FreeStripped(parts[0]);
    if |parts| >= 2 {
      var rest := parts[2..];
      assert forall k :: 0 <= k < |rest| ==> rest[k] == parts[k + 2];
      KeptAreBlocks(rest);
      MarkerKept(parts[1]);
      assert parts[1..][1..] == rest;
      assert Kept(parts[1..]) == Kept(rest);
    }
  }

  /** `parse_questions` parses exactly the non-blank blocks between the
      markers (and before the first), in order, numbering them from 1. */
  lemma ParseQuestionsBlocks(text: string)
    ensures ParseQuestions(text) == ParseBlocks(ParseBody, Blocks(Parts(text)), 0)
  {
    KeptAreBlocks(Parts(text));
  }

  /** One record per non-blank block, the k-th with id `class2_q` + (k+1),
      or a failure when some block has an empty answer label. */
  lemma ParseQuestionsIds(text: string)
    ensures var blocks := Blocks(Parts(text));
            var r := ParseQuestions(text);
            && (r.Success? <==> forall k :: 0 <= k < |blocks| ==> !HasBadAnswerLine(SplitOn(blocks[k], '\n')))
            && (r.Success? ==> |r.value| == |blocks|)
            && (r.Success? ==> forall k :: 0 <= k < |r.value| ==> r.value[k].id == IdPrefix + NatToString(k + 1))
  {
    var blocks := Blocks(Parts(text));
    ParseQuestionsBlocks(text);
    ParseBlocksEach(ParseBody, blocks, 0);
  }

  /** Record ids are distinct. */
  lemma IdsDistinct(text: string, i: nat, j: nat)
    requires ParseQuestions(text).Success?
    requires i < j < |ParseQuestions(text).value|
    ensures ParseQuestions(text).value[i].id != ParseQuestions(text).value[j].id
  {
    ParseQuestionsIds(text);
    var r := ParseQuestions(text).value;
    NatToStringInjective(i + 1, j + 1);
    assert r[i].id[|IdPrefix|..] == NatToString(i + 1);
    assert r[j].id[|IdPrefix|..] == NatToString(j + 1);
  }

  /** The record as the app's decoder reads it from the topic file. */
  function ToRaw(p: ParsedQuestion): RawRecord {
    RawRecord(
      Some(p.id), Some(p.category), Some(p.question), None, Some(p.choices),
      Some(p.answerLabel), Some(p.answerIndex), None, Some(p.explanation))
  }

  /** A parsed block is accepted by the app exactly when it has two or four
      choices and an A-D label within them; then id, category, prompt and
      answer survive unchanged. */
  lemma ParsedDecodes(body: string, number: nat)
    requires ParseBody(body, number).Success?
    ensures var p := ParseBody(body, number).value;
            && (Decode(ToRaw(p)).Success? <==>
                  && (|p.choices| == 2 || |p.choices| == 4)
                  && IndexOfLabel(p.answerLabel).Some?
                  && IndexOfLabel(p.answerLabel).value < |p.choices|)
            && (Decode(ToRaw(p)).Success? ==>
                  Decode(ToRaw(p)).value ==
                    Question(p.id, p.category, p.question, p.choices, p.answerLabel, p.answerIndex, p.explanation))
  {
  }

  // ---------------------------------------------------------------------
  // Topic files.

  /** One entry of the topic table: a 1-based inclusive question range, the
      output file name and the category written into its records. */
  datatype FileTopic = FileTopic(first: nat, last: nat, fileName: string, name: string)

  const FileTopics: seq<FileTopic> := [
    FileTopic(1, 10, "class2_genre1", "危険物の性状"),
    FileTopic(11, 20, "class2_genre2", "火災予防と貯蔵"),
    FileTopic(21, 30, "class2_genre3", "消火方法"),
    FileTopic(31, 40, "class2_genre4", "硫化リン"),
    FileTopic(41, 50, "class2_genre5", "赤リン"),
    FileTopic(51, 60, "class2_genre6", "硫黄"),
    FileTopic(61, 70, "class2_genre7", "鉄粉"),
    FileTopic(71, 80, "class2_genre8", "金属粉・マグネシウム"),
    FileTopic(81, 90, "class2_genre9", "引火性固体"),
    FileTopic(91, 100, "class2_genre10", "法令・指定数量")
  ]

  /** The table's ranges are the blocks of ten 1-10, 11-20, ..., 91-100. */
  lemma FileTopicsTile(i: nat)
    requires i < |FileTopics|
    ensures |FileTopics| == 10
    ensures FileTopics[i].first == 10 * i + 1 && FileTopics[i].last == 10 * i + 10
  {
  }

  /** Python's `s[lo:hi]` for non-negative bounds: bounds past the end are
      clamped, and an empty range gives `[]`. */
  function Slice<T>(s: seq<T>, lo: nat, hi: nat): (r: seq<T>)
    ensures lo < |s| && lo <= hi ==> |r| == (if hi <= |s| then hi else |s|) - lo
    ensures lo >= |s| || hi <= lo ==> r == []
    ensures forall k :: 0 <= k < |r| ==> lo + k < |s| && r[k] == s[lo + k]
  {
    var a := if lo <= |s| then lo else |s|;
    var b := if hi <= |s| then hi else |s|;
    if a < b then s[a..b] else []
  }

  /** The records of one topic file: the table's range of the parsed list,
      each with the topic's name as category. */
  function TopicFile(all: seq<ParsedQuestion>, t: FileTopic): (r: seq<ParsedQuestion>)
    requires t.first >= 1
    ensures t.first - 1 < |all| && t.first - 1 <= t.last ==>
              |r| == (if t.last <= |all| then t.last else |all|) - (t.first - 1)
    ensures forall k :: 0 <= k < |r| ==> t.first - 1 + k < |all| && r[k] == all[t.first - 1 + k].(category := t.name)
  {
    var slice := Slice(all, t.first - 1, t.last);
    seq(|slice|, k requires 0 <= k < |slice| => slice[k].(category := t.name))
  }

  /** Each of the first hundred records is written to the file of its
      block of ten, at its place there, with that topic's name; no other
      topic's range contains it. */
  lemma RecordFile(all: seq<ParsedQuestion>, n: nat)
    requires n < |all| && n < 100
    ensures var t := FileTopics[n / 10];
            n % 10 < |TopicFile(all, t)| && TopicFile(all, t)[n % 10] == all[n].(category := t.name)
    ensures forall i :: 0 <= i < |FileTopics| && FileTopics[i].first <= n + 1 <= FileTopics[i].last ==> i == n / 10
  {
    var q := n / 10;
    var m := n % 10;
    assert n == 10 * q + m && m < 10;
    FileTopicsTile(q);
    var t := FileTopics[q];
    assert t.first - 1 + m == n;
    assert TopicFile(all, t)[m] == all[t.first - 1 + m].(category := t.name);
    forall i | 0 <= i < |FileTopics| && FileTopics[i].first <= n + 1 <= FileTopics[i].last
      ensures i == n / 10
    {
      FileTopicsTile(i);
    }
  }
}
