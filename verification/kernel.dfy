/** The level kernel of one quiz game: the ordered list of levels, a pointer
    into it, and the parsed question and answers of the current level. The
    directory tree, the YAML configuration and the pickled level files are
    given as values. */
module QuizKernel {
  import opened Results
  import opened Strings
  import opened ReadWrite

  /** The game's config.yaml, already read. */
  datatype Config = Config(changeLevelStep: int, randomLevels: bool, allowToGetAnswer: bool, introMessage: string)

  /** One name in the game directory listing. */
  datatype Entry = Entry(name: string, isDir: bool)

  /** The two pickled files of a level directory. */
  datatype LevelContent = LevelContent(question: seq<Item>, answerLines: seq<string>)

  /** A game directory: its config, its listing in natural order, and the
      contents of the level directories whose files can be read. */
  datatype GameDir = GameDir(config: Config, entries: seq<Entry>, contents: map<string, LevelContent>)

  // ---------------------------------------------------------------------------
  // Levels

  predicate IsLevel(e: Entry) {
    e.isDir && !StartsWith(e.name, "-")
  }

  /** The levels of a game: its sub-directories not starting with '-', in
      listing order. */
  function ListLevels(entries: seq<Entry>): (levels: seq<string>)
    ensures forall i :: 0 <= i < |levels| ==> !StartsWith(levels[i], "-")
    ensures forall name :: name in levels <==> exists e :: e in entries && IsLevel(e) && e.name == name
    decreases |entries|
  {
    if |entries| == 0 then []
    else
      var rest := ListLevels(entries[1..]);
      assert forall e :: e in entries[1..] ==> e in entries;
      assert forall e :: e in entries ==> e == entries[0] || e in entries[1..];
      if IsLevel(entries[0]) then [entries[0].name] + rest else rest
  }

  /** Listing a concatenation lists each part in turn. */
  lemma {:induction false} ListLevelsAppend(a: seq<Entry>, b: seq<Entry>)
    ensures ListLevels(a + b) == ListLevels(a) + ListLevels(b)
    decreases |a|
  {
    if |a| > 0 {
      assert (a + b)[1..] == a[1..] + b;
      ListLevelsAppend(a[1..], b);
    } else {
      assert a + b == b;
    }
  }

  /** The levels keep the listing's order: an entry contributes its name,
      exactly when it is a level, between the levels before it and the
      levels after it. */
  lemma ListLevelsKeepsOrder(a: seq<Entry>, e: Entry, b: seq<Entry>)
    ensures ListLevels(a + [e] + b) == ListLevels(a) + (if IsLevel(e) then [e.name] else []) + ListLevels(b)
  {
    ListLevelsAppend(a + [e], b);
    ListLevelsAppend(a, [e]);
    assert ListLevels([e]) == (if IsLevel(e) then [e.name] else []) + ListLevels([e][1..]);
  }

  /** Python's list indexing `xs[i]`, negative indices counting from the end. */
  function PyIndex(n: nat, i: int): (r: Option<nat>)
    ensures r.Some? <==> -(n as int) <= i < n
    ensures r.Some? ==> r.value < n && (r.value == i || r.value == n + i)
  {
    if 0 <= i < n then Some(i)
    else if -(n as int) <= i < 0 then Some(n + i)
    else None
  }

  // ---------------------------------------------------------------------------
  // Answer lines

  /** How one line of a level's answer file is read. */
  datatype LineKind =
    | GuessLine(trigger: string, reply: string)   // ?trigger?reply
    | HintLine(text: string)                      // <text>
    | AnswerLine(text: string)                    // anything else

  /** The classification shared by the kernel and the author's preview: a line
      starting with '?' and holding exactly one more '?' is a guess, a line
      enclosed in '<' and '>' is a hint, every other line is an answer. */
  function Classify(line: string): (k: LineKind)
    ensures k.GuessLine? <==> |line| > 0 && line[0] == '?' && CountChar(line[1..], '?') == 1
    ensures k.GuessLine? ==> line == "?" + k.trigger + "?" + k.reply && '?' !in k.trigger && '?' !in k.reply
    ensures k.HintLine? <==> !k.GuessLine? && |line| >= 2 && line[0] == '<' && line[|line| - 1] == '>'
    ensures k.HintLine? ==> line == "<" + k.text + ">"
    ensures k.AnswerLine? ==> k.text == line
  {
    ClassifyGuessParts(line);
    if StartsWith(line, "?") && |SplitSep(line[1..], "?")| == 2 then
      var parts := SplitSep(line[1..], "?");
      GuessLine(parts[0], parts[1])
    else if StartsWith(line, "<") && EndsWith(line, ">") then
      assert line[0] == '<' && line[|line| - 1] == '>';
      HintLine(line[1..|line| - 1])
    else AnswerLine(line)
  }

  lemma ClassifyGuessParts(line: string)
    ensures StartsWith(line, "?") ==> (|SplitSep(line[1..], "?")| == 2 <==> CountChar(line[1..], '?') == 1)
    ensures StartsWith(line, "?") && |SplitSep(line[1..], "?")| == 2 ==>
              var parts := SplitSep(line[1..], "?");
              line == "?" + parts[0] + "?" + parts[1] && '?' !in parts[0] && '?' !in parts[1]
  {
    if StartsWith(line, "?") {
      var parts := SplitSep(line[1..], "?");
      SplitCharCount(line[1..], '?');
      if |parts| == 2 {
        JoinSplit(line[1..], "?");
        assert JoinWith(parts, "?") == parts[0] + "?" + parts[1] by {
          assert parts[1..] == [parts[1]];
        }
        assert line == [line[0]] + line[1..];
        SplitCharPiecesFree(line[1..], '?');
        assert '?' !in parts[0] && '?' !in parts[1];
      }
    }
  }

  /** A stored guess: the normalised trigger and the reply shown for it. */
  datatype Guess = Guess(trigger: string, reply: string)

  /** The exact answers, hints and guesses of a level. */
  datatype AnswerSet = AnswerSet(answers: seq<string>, hints: seq<string>, guesses: seq<Guess>)

  /** An answer line is lower-cased, stripped, and has ё written as е. */
  function AnswerForm(line: string): string {
    ReplaceChar(Strip(Lower(line)), SmallYo, SmallYe)
  }

  /** A hint is lower-cased and stripped, ё kept. */
  function HintForm(text: string): string {
    Strip(Lower(text))
  }

  /** A guess trigger is stripped then normalised; its reply is stripped. */
  function GuessForm(trigger: string, reply: string): Guess {
    Guess(ReplaceChar(Lower(Strip(trigger)), SmallYo, SmallYe), Strip(reply))
  }

  /** The exact answers the lines give, in line order. */
  function AnswersOf(lines: seq<string>): (r: seq<string>)
    ensures |r| <= |lines|
    decreases |lines|
  {
    if |lines| == 0 then []
    else (if Classify(lines[0]).AnswerLine? then [AnswerForm(lines[0])] else []) + AnswersOf(lines[1..])
  }

  /** The hints the lines give, in line order. */
  function HintsOf(lines: seq<string>): (r: seq<string>)
    ensures |r| <= |lines|
    decreases |lines|
  {
    if |lines| == 0 then []
    else
      var k := Classify(lines[0]);
      (if k.HintLine? then [HintForm(k.text)] else []) + HintsOf(lines[1..])
  }

  /** The guesses the lines give, in line order. */
  function GuessesOf(lines: seq<string>): (r: seq<Guess>)
    ensures |r| <= |lines|
    decreases |lines|
  {
    if |lines| == 0 then []
    else
      var k := Classify(lines[0]);
      (if k.GuessLine? then [GuessForm(k.trigger, k.reply)] else []) + GuessesOf(lines[1..])
  }

  /** Every line lands in exactly one of the three lists. */
  lemma {:induction false} CategoriesPartitionLines(lines: seq<string>)
    ensures |AnswersOf(lines)| + |HintsOf(lines)| + |GuessesOf(lines)| == |lines|
    decreases |lines|
  {
    if |lines| > 0 {
      CategoriesPartitionLines(lines[1..]);
    }
  }

  /** Line i is an answer line whose answer form is x. */
  predicate AnswerAt(lines: seq<string>, i: int, x: string) {
    0 <= i < |lines| && Classify(lines[i]).AnswerLine? && AnswerForm(lines[i]) == x
  }

  /** Line i is a hint line whose hint form is h. */
  predicate HintAt(lines: seq<string>, i: int, h: string) {
    0 <= i < |lines| && Classify(lines[i]).HintLine? && HintForm(Classify(lines[i]).text) == h
  }

  /** Line i is a guess line whose guess form is g. */
  predicate GuessAt(lines: seq<string>, i: int, g: Guess) {
    0 <= i < |lines| && Classify(lines[i]).GuessLine? && GuessForm(Classify(lines[i]).trigger, Classify(lines[i]).reply) == g
  }

  /** What each line contributes, concatenated in line order. */
  function Collect<T>(lines: seq<string>, f: string -> seq<T>): seq<T>
    decreases |lines|
  {
    if |lines| == 0 then [] else f(lines[0]) + Collect(lines[1..], f)
  }

  /** x is collected exactly when some line contributes it. */
  lemma {:induction false} CollectMembers<T>(lines: seq<string>, f: string -> seq<T>, x: T)
    ensures x in Collect(lines, f) <==> exists i :: 0 <= i < |lines| && x in f(lines[i])
    decreases |lines|
  {
    if |lines| > 0 {
      var tail := lines[1..];
      CollectMembers(tail, f, x);
      if x in Collect(lines, f) && x !in f(lines[0]) {
        var i :| 0 <= i < |tail| && x in f(tail[i]);
        assert tail[i] == lines[i + 1];
      }
      if exists i :: 0 <= i < |lines| && x in f(lines[i]) {
        var i :| 0 <= i < |lines| && x in f(lines[i]);
        if i > 0 {
          assert tail[i - 1] == lines[i];
        }
      }
    }
  }

  lemma CollectIndex<T>(lines: seq<string>, f: string -> seq<T>, x: T) returns (i: int)
    requires x in Collect(lines, f)
    ensures 0 <= i < |lines| && x in f(lines[i])
  {
    CollectMembers(lines, f, x);
    i :| 0 <= i < |lines| && x in f(lines[i]);
  }

  lemma CollectIncludes<T>(lines: seq<string>, f: string -> seq<T>, i: int, x: T)
    requires 0 <= i < |lines| && x in f(lines[i])
    ensures x in Collect(lines, f)
  {
    CollectMembers(lines, f, x);
  }

  function AnswerOfLine(line: string): seq<string> {
    if Classify(line).AnswerLine? then [AnswerForm(line)] else []
  }

  function HintOfLine(line: string): seq<string> {
    var k := Classify(line);
    if k.HintLine? then [HintForm(k.text)] else []
  }

  function GuessOfLine(line: string): seq<Guess> {
    var k := Classify(line);
    if k.GuessLine? then [GuessForm(k.trigger, k.reply)] else []
  }

  lemma {:induction false} AnswersOfCollects(lines: seq<string>)
    ensures AnswersOf(lines) == Collect(lines, AnswerOfLine)
    decreases |lines|
  {
    if |lines| > 0 {
      AnswersOfCollects(lines[1..]);
    }
  }

  lemma {:induction false} HintsOfCollects(lines: seq<string>)
    ensures HintsOf(lines) == Collect(lines, HintOfLine)
    decreases |lines|
  {
    if |lines| > 0 {
      HintsOfCollects(lines[1..]);
    }
  }

  lemma {:induction false} GuessesOfCollects(lines: seq<string>)
    ensures GuessesOf(lines) == Collect(lines, GuessOfLine)
    decreases |lines|
  {
    if |lines| > 0 {
      GuessesOfCollects(lines[1..]);
    }
  }

  /** The exact answers are exactly the answer forms of the answer lines. */
  lemma AnswersOfMembers(lines: seq<string>, x: string)
    ensures x in AnswersOf(lines) <==> exists i :: AnswerAt(lines, i, x)
  {
    if x in AnswersOf(lines) {
      var i := AnswerIndex(lines, x);
    }
    forall i | AnswerAt(lines, i, x)
      ensures x in AnswersOf(lines)
    {
      AnswerAtIsCollected(lines, i, x);
    }
  }

  lemma AnswerIndex(lines: seq<string>, x: string) returns (i: int)
    requires x in AnswersOf(lines)
    ensures AnswerAt(lines, i, x)
  {
    AnswersOfCollects(lines);
    i := CollectIndex(lines, AnswerOfLine, x);
    AnswerOfLineIff(lines[i], x);
  }

  lemma AnswerAtIsCollected(lines: seq<string>, i: int, x: string)
    requires AnswerAt(lines, i, x)
    ensures x in AnswersOf(lines)
  {
    AnswerOfLineIff(lines[i], x);
    AnswersOfCollects(lines);
    CollectIncludes(lines, AnswerOfLine, i, x);
  }

  lemma AnswerOfLineIff(line: string, x: string)
    ensures x in AnswerOfLine(line) <==> Classify(line).AnswerLine? && AnswerForm(line) == x
  {
    var a := AnswerForm(line);
    if Classify(line).AnswerLine? {
      assert AnswerOfLine(line) == [a];
    } else {
      assert AnswerOfLine(line) == [];
    }
  }

  /** The hints are exactly the hint forms of the hint lines. */
  lemma HintsOfMembers(lines: seq<string>, h: string)
    ensures h in HintsOf(lines) <==> exists i :: HintAt(lines, i, h)
  {
    if h in HintsOf(lines) {
      var i := HintIndex(lines, h);
    }
    forall i | HintAt(lines, i, h)
      ensures h in HintsOf(lines)
    {
      HintAtIsCollected(lines, i, h);
    }
  }

  lemma HintIndex(lines: seq<string>, h: string) returns (i: int)
    requires h in HintsOf(lines)
    ensures HintAt(lines, i, h)
  {
    HintsOfCollects(lines);
    i := CollectIndex(lines, HintOfLine, h);
    HintOfLineIff(lines[i], h);
  }

  lemma HintAtIsCollected(lines: seq<string>, i: int, h: string)
    requires HintAt(lines, i, h)
    ensures h in HintsOf(lines)
  {
    HintOfLineIff(lines[i], h);
    HintsOfCollects(lines);
    CollectIncludes(lines, HintOfLine, i, h);
  }

  lemma HintOfLineIff(line: string, h: string)
    ensures h in HintOfLine(line) <==> Classify(line).HintLine? && HintForm(Classify(line).text) == h
  {
  }

  /** The guesses are exactly the guess forms of the guess lines. */
  lemma GuessesOfMembers(lines: seq<string>, g: Guess)
    ensures g in GuessesOf(lines) <==> exists i :: GuessAt(lines, i, g)
  {
    if g in GuessesOf(lines) {
      var i := GuessIndex(lines, g);
    }
    forall i | GuessAt(lines, i, g)
      ensures g in GuessesOf(lines)
    {
      GuessAtIsCollected(lines, i, g);
    }
  }

  lemma GuessIndex(lines: seq<string>, g: Guess) returns (i: int)
    requires g in GuessesOf(lines)
    ensures GuessAt(lines, i, g)
  {
    GuessesOfCollects(lines);
    i := CollectIndex(lines, GuessOfLine, g);
    GuessOfLineIff(lines[i], g);
  }

  lemma GuessAtIsCollected(lines: seq<string>, i: int, g: Guess)
    requires GuessAt(lines, i, g)
    ensures g in GuessesOf(lines)
  {
    GuessOfLineIff(lines[i], g);
    GuessesOfCollects(lines);
    CollectIncludes(lines, GuessOfLine, i, g);
  }

  lemma GuessOfLineIff(line: string, g: Guess)
    ensures g in GuessOfLine(line) <==> Classify(line).GuessLine? && GuessForm(Classify(line).trigger, Classify(line).reply) == g
  {
  }

  /** The answer set of a level: the three lists, an empty one replaced by a
      single placeholder. */
  function ParseAnswers(lines: seq<string>): (a: AnswerSet)
    ensures |a.answers| >= 1 && |a.hints| >= 1 && |a.guesses| >= 1
    ensures |AnswersOf(lines)| > 0 ==> a.answers == AnswersOf(lines)
    ensures |AnswersOf(lines)| == 0 ==> a.answers == [""]
    ensures |HintsOf(lines)| > 0 ==> a.hints == HintsOf(lines)
    ensures |HintsOf(lines)| == 0 ==> a.hints == [""]
    ensures |GuessesOf(lines)| > 0 ==> a.guesses == GuessesOf(lines)
    ensures |GuessesOf(lines)| == 0 ==> a.guesses == [Guess("", "")]
  {
    var answers := AnswersOf(lines);
    var hints := HintsOf(lines);
    var guesses := GuessesOf(lines);
    AnswerSet(if |answers| == 0 then [""] else answers,
              if |hints| == 0 then [""] else hints,
              if |guesses| == 0 then [Guess("", "")] else guesses)
  }

  // ---------------------------------------------------------------------------
  // Checking an answer

  /** AnswerCorrectness.CORRECT, or the text replied to a wrong answer. */
  datatype Verdict = Correct | Reply(text: string)

  const WrongAnswer: string := "Нет"

  /** Guess i is the first whose trigger is the key. */
  predicate FirstMatch(guesses: seq<Guess>, key: string, i: int) {
    && 0 <= i < |guesses|
    && guesses[i].trigger == key
    && forall j :: 0 <= j < i ==> guesses[j].trigger != key
  }

  /** The reply of the first guess triggered by the key, if any. */
  function FirstGuessReply(guesses: seq<Guess>, key: string): (r: Option<string>)
    ensures r.None? <==> forall i :: 0 <= i < |guesses| ==> guesses[i].trigger != key
    ensures r.Some? ==> exists i :: FirstMatch(guesses, key, i) && r.value == guesses[i].reply
    decreases |guesses|
  {
    if |guesses| == 0 then None
    else if guesses[0].trigger == key then
      assert FirstMatch(guesses, key, 0);
      Some(guesses[0].reply)
    else
      var r := FirstGuessReply(guesses[1..], key);
      assert forall i :: 1 <= i < |guesses| ==> guesses[i] == guesses[1..][i - 1];
      if r.Some? then
        ghost var i :| FirstMatch(guesses[1..], key, i) && r.value == guesses[1..][i].reply;
        assert FirstMatch(guesses, key, i + 1);
        r
      else r
  }

  /** QQuizKernel.check_answer: correct exactly when the normalised input is an
      exact answer; otherwise the reply of the first matching guess, else "Нет". */
  function CheckAnswer(a: AnswerSet, input: string): (v: Verdict)
    ensures v == Correct <==> Norm(input) in a.answers
    ensures v.Reply? && (exists i :: 0 <= i < |a.guesses| && a.guesses[i].trigger == Norm(input)) ==>
              exists i :: FirstMatch(a.guesses, Norm(input), i) && v.text == a.guesses[i].reply
    ensures v.Reply? && (forall i :: 0 <= i < |a.guesses| ==> a.guesses[i].trigger != Norm(input)) ==>
              v.text == WrongAnswer
  {
    var key := Norm(input);
    if key in a.answers then Correct
    else match FirstGuessReply(a.guesses, key)
      case Some(reply) => Reply(reply)
      case None => Reply(WrongAnswer)
  }

  /** Answers that differ only in letter case or in ё against е get the same
      verdict. */
  lemma CheckAnswerIgnoresCaseAndYo(a: AnswerSet, input: string)
    ensures CheckAnswer(a, Upper(input)) == CheckAnswer(a, input)
    ensures CheckAnswer(a, Lower(input)) == CheckAnswer(a, input)
    ensures CheckAnswer(a, ReplaceChar(input, SmallYe, SmallYo)) == CheckAnswer(a, input)
  {
    NormIgnoresCaseAndYo(input);
  }

  /** An answer line, typed back in its stored form in any letter case, is
      accepted. */
  lemma AnswerLineAccepted(lines: seq<string>, i: int)
    requires 0 <= i < |lines| && Classify(lines[i]).AnswerLine?
    ensures CheckAnswer(ParseAnswers(lines), AnswerForm(lines[i])) == Correct
    ensures CheckAnswer(ParseAnswers(lines), Upper(AnswerForm(lines[i]))) == Correct
  {
    var x := AnswerForm(lines[i]);
    var a := ParseAnswers(lines);
    assert AnswerAt(lines, i, x);
    AnswersOfMembers(lines, x);
    assert x in a.answers;
    AnswerFormNormal(lines[i]);
    NormIgnoresCaseAndYo(x);
    assert Norm(x) in a.answers && Norm(Upper(x)) in a.answers;
  }

  // ---------------------------------------------------------------------------
  // The kernel

  /** The state of one game for one chat. The listing is the one the game was
      created with. */
  datatype Kernel = Kernel(
    workingDir: string,
    game: GameDir,
    pointer: int,
    puzzleDir: string,
    question: seq<Item>,
    answers: AnswerSet)
  {
    function Levels(): seq<string> {
      ListLevels(game.entries)
    }

    function Config(): Config {
      game.config
    }

    /** The level index lies within the level list. */
    predicate Valid() {
      0 <= pointer < |Levels()|
    }

    /** The three lists are non-empty, as after any parse. */
    predicate Parsed() {
      |answers.answers| >= 1 && |answers.hints| >= 1 && |answers.guesses| >= 1
    }
  }

  datatype KernelError =
    | GameNotFound(dir: string)        // config.yaml cannot be opened
    | LevelOutOfRange(index: int)      // levels[index] raises IndexError
    | LevelFilesMissing(dir: string)   // the level's pickles cannot be read

  /** The initial state before the first read of a level: QQuizKernel.__init__
      sets placeholder lists. */
  function Placeholders(): (a: AnswerSet)
    ensures a == ParseAnswers([])
  {
    AnswerSet([""], [""], [Guess("", "")])
  }

  /** The outcome of reading the pointed level: the updated kernel, and the
      exception raised, if any. puzzle_dir is assigned before the files are
      read, so a missing file leaves it changed. */
  datatype Loaded = Loaded(kernel: Kernel, failure: Option<KernelError>)

  /** QQuizKernel.get_new_question: re-reads the pointed level. */
  function Refresh(k: Kernel): (r: Loaded)
    ensures r.kernel.pointer == k.pointer && r.kernel.game == k.game && r.kernel.workingDir == k.workingDir
    ensures r.failure.None? <==>
              PyIndex(|k.Levels()|, k.pointer).Some? && k.Levels()[PyIndex(|k.Levels()|, k.pointer).value] in k.game.contents
    ensures r.failure.None? ==>
              var name := k.Levels()[PyIndex(|k.Levels()|, k.pointer).value];
              && r.kernel.puzzleDir == PathJoin(k.workingDir, name)
              && r.kernel.question == k.game.contents[name].question
              && r.kernel.answers == ParseAnswers(k.game.contents[name].answerLines)
    ensures r.failure == Some(LevelOutOfRange(k.pointer)) <==> PyIndex(|k.Levels()|, k.pointer).None?
    ensures PyIndex(|k.Levels()|, k.pointer).None? ==> r.kernel == k
    ensures r.failure.Some? ==> r.kernel.question == k.question && r.kernel.answers == k.answers
  {
    var levels := k.Levels();
    match PyIndex(|levels|, k.pointer)
    case None => Loaded(k, Some(LevelOutOfRange(k.pointer)))
    case Some(idx) =>
      var dir := PathJoin(k.workingDir, levels[idx]);
      if levels[idx] !in k.game.contents then Loaded(k.(puzzleDir := dir), Some(LevelFilesMissing(dir)))
      else
        var content := k.game.contents[levels[idx]];
        Loaded(k.(puzzleDir := dir, question := content.question, answers := ParseAnswers(content.answerLines)), None)
  }

  /** QQuizKernel(working_dir, last_question): opens the game and reads the
      level at the given index. */
  function Create(disk: map<string, GameDir>, workingDir: string, lastQuestion: int): (r: Result<Kernel, KernelError>)
    ensures workingDir !in disk ==> r == Err(GameNotFound(workingDir))
    ensures r.Ok? ==> && r.value.workingDir == workingDir && r.value.pointer == lastQuestion
                      && workingDir in disk && r.value.game == disk[workingDir] && r.value.Parsed()
    ensures workingDir in disk ==>
              var blank := Kernel(workingDir, disk[workingDir], lastQuestion, "", [], Placeholders());
              r.Ok? <==> Refresh(blank).failure.None?
  {
    if workingDir !in disk then Err(GameNotFound(workingDir))
    else
      var blank := Kernel(workingDir, disk[workingDir], lastQuestion, "", [], Placeholders());
      var loaded := Refresh(blank);
      match loaded.failure
      case Some(e) => Err(e)
      case None => Ok(loaded.kernel)
  }

  /** QQuizKernel.serialize_to_db: what a chat stores to rebuild its game. */
  function Serialize(k: Kernel): (string, int) {
    (k.workingDir, k.pointer)
  }

  /** Rebuilding a kernel from its serialised form over the same game gives
      the kernel a fresh read of its level would give: the pointer survives. */
  lemma RebuildPreservesLevel(k: Kernel, disk: map<string, GameDir>)
    requires k.workingDir in disk && disk[k.workingDir] == k.game
    requires Refresh(k).failure.None?
    ensures Create(disk, Serialize(k).0, Serialize(k).1) == Ok(Refresh(k).kernel)
    ensures Create(disk, Serialize(k).0, Serialize(k).1).value.pointer == k.pointer
  {
    var blank := Kernel(k.workingDir, disk[k.workingDir], k.pointer, "", [], Placeholders());
    assert blank.Levels() == k.Levels();
  }

  // ---------------------------------------------------------------------------
  // Moving between levels

  /** QQuizKernel.next: a random index (the draw) or one step forward, clamped
      to the last level. The level itself is re-read by Refresh. */
  function Next(k: Kernel, draw: int): (r: Kernel)
    requires k.Config().randomLevels ==> 0 <= draw < |k.Levels()|
    ensures r == k.(pointer := r.pointer)
    ensures r.pointer <= |k.Levels()| - 1
    ensures k.Config().randomLevels ==> r.pointer == draw
    ensures !k.Config().randomLevels && k.pointer + 1 < |k.Levels()| ==> r.pointer == k.pointer + 1
    ensures !k.Config().randomLevels && k.pointer + 1 >= |k.Levels()| ==> r.pointer == |k.Levels()| - 1
  {
    var n := |k.Levels()|;
    var p := if k.Config().randomLevels then draw else k.pointer + 1;
    k.(pointer := if p >= n then n - 1 else p)
  }

  /** Next keeps a valid pointer valid. */
  lemma NextPreservesValid(k: Kernel, draw: int)
    requires k.Valid()
    requires k.Config().randomLevels ==> 0 <= draw < |k.Levels()|
    ensures Next(k, draw).Valid()
  {
  }

  /** At the last level, sequential next stays there. */
  lemma NextIdempotentAtLast(k: Kernel, draw: int)
    requires !k.Config().randomLevels && k.pointer == |k.Levels()| - 1
    ensures Next(k, draw) == k
    ensures Next(Next(k, draw), draw) == Next(k, draw)
  {
  }

  /** QQuizKernel.set_level: any index, taken unchecked, when jumping is enabled. */
  function SetLevel(k: Kernel, level: int): (r: Kernel)
    ensures k.Config().changeLevelStep == 0 ==> r == k
    ensures k.Config().changeLevelStep != 0 ==> r == k.(pointer := level)
  {
    if k.Config().changeLevelStep != 0 then k.(pointer := level) else k
  }

  /** Because the index is not checked, a jump past the last level makes the
      next read fail, and a negative one reads a level counted from the end. */
  lemma SetLevelUnchecked(k: Kernel, level: int)
    requires k.Config().changeLevelStep != 0
    ensures level >= |k.Levels()| || level < -|k.Levels()| ==>
              Refresh(SetLevel(k, level)).failure == Some(LevelOutOfRange(level))
    ensures -|k.Levels()| <= level < 0 && k.Levels()[|k.Levels()| + level] in k.game.contents ==>
              && Refresh(SetLevel(k, level)).failure.None?
              && Refresh(SetLevel(k, level)).kernel.puzzleDir == PathJoin(k.workingDir, k.Levels()[|k.Levels()| + level])
  {
    var j := SetLevel(k, level);
    assert j == k.(pointer := level);
    assert j.Levels() == k.Levels();
    var n := |k.Levels()|;
    if level >= n || level < -n {
      assert PyIndex(n, level).None?;
    } else if level < 0 {
      assert PyIndex(n, level) == Some(n + level);
    }
  }

  /** The index of the first occurrence of x, as list.index. */
  function IndexOf(xs: seq<string>, x: string): (i: nat)
    requires x in xs
    ensures i < |xs| && xs[i] == x
    ensures forall j :: 0 <= j < i ==> xs[j] != x
    decreases |xs|
  {
    if xs[0] == x then 0 else 1 + IndexOf(xs[1..], x)
  }

  /** QQuizKernel.set_level_by_name: jumps to the first level of that name
      when jumping is enabled; an unknown name changes nothing. */
  function SetLevelByName(k: Kernel, name: string): (r: Kernel)
    ensures r == k.(pointer := r.pointer)
    ensures k.Config().changeLevelStep == 0 || name !in k.Levels() ==> r == k
    ensures k.Config().changeLevelStep != 0 && name in k.Levels() ==>
              && r.Valid() && k.Levels()[r.pointer] == name
              && forall j :: 0 <= j < r.pointer ==> k.Levels()[j] != name
  {
    if k.Config().changeLevelStep != 0 && name in k.Levels() then k.(pointer := IndexOf(k.Levels(), name))
    else k
  }

  /** QQuizKernel.reset. */
  function Reset(k: Kernel): (r: Kernel)
    ensures r == k.(pointer := 0)
    ensures |k.Levels()| > 0 ==> r.Valid()
  {
    k.(pointer := 0)
  }

  // ---------------------------------------------------------------------------
  // Listing levels for jumping

  /** xs[::step] for a positive step. */
  function StrideForward(xs: seq<string>, step: nat): seq<string>
    requires step > 0
    decreases |xs|
  {
    if |xs| == 0 then []
    else [xs[0]] + StrideForward(xs[if step < |xs| then step else |xs|..], step)
  }

  lemma MulStep(j: int, step: int)
    ensures (j - 1) * step + step == j * step
  {
  }

  /** StrideForward has as many elements as there are multiples of step
      below the length. */
  lemma {:induction false} StrideForwardLength(xs: seq<string>, step: nat)
    requires step > 0
    ensures var n := |StrideForward(xs, step)|;
            n * step >= |xs| && (n == 0 || (n - 1) * step < |xs|)
    decreases |xs|
  {
    if |xs| > 0 {
      var tail := xs[if step < |xs| then step else |xs|..];
      StrideForwardLength(tail, step);
      var n := |StrideForward(xs, step)|;
      assert n == 1 + |StrideForward(tail, step)|;
      MulStep(n, step);
      MulStep(n - 1, step);
    }
  }

  /** Element j of StrideForward is element j·step of the input. */
  lemma {:induction false} StrideForwardAt(xs: seq<string>, step: nat, j: nat)
    requires step > 0 && j < |StrideForward(xs, step)|
    ensures j * step < |xs| && StrideForward(xs, step)[j] == xs[j * step]
    decreases j
  {
    if j > 0 {
      var tail := xs[if step < |xs| then step else |xs|..];
      assert StrideForward(xs, step) == [xs[0]] + StrideForward(tail, step);
      StrideForwardAt(tail, step, j - 1);
      MulStep(j, step);
      assert step < |xs|;
      assert tail[(j - 1) * step] == xs[(j - 1) * step + step];
    }
  }

  function Reverse(xs: seq<string>): (r: seq<string>)
    ensures |r| == |xs| && forall i :: 0 <= i < |xs| ==> r[i] == xs[|xs| - 1 - i]
  {
    seq(|xs|, i requires 0 <= i < |xs| => xs[|xs| - 1 - i])
  }

  /** Python's xs[::step] for a non-zero step; a negative step walks from
      the end. */
  function Slice(xs: seq<string>, step: int): seq<string>
    requires step != 0
  {
    if step > 0 then StrideForward(xs, step) else StrideForward(Reverse(xs), -step)
  }

  /** The elements of Slice are those at start + j·step, start being the first
      index for a positive step and the last for a negative one. */
  lemma SliceAt(xs: seq<string>, step: int, j: nat)
    requires step != 0 && j < |Slice(xs, step)|
    ensures step > 0 ==> j * step < |xs| && Slice(xs, step)[j] == xs[j * step]
    ensures step < 0 ==> 0 <= |xs| - 1 + j * step && Slice(xs, step)[j] == xs[|xs| - 1 + j * step]
  {
    if step > 0 {
      StrideForwardAt(xs, step, j);
    } else {
      SliceBackwardAt(xs, -step, j);
      NegateProduct(j, step);
    }
  }

  lemma SliceBackwardAt(xs: seq<string>, m: nat, j: nat)
    requires m > 0 && j < |StrideForward(Reverse(xs), m)|
    ensures j * m < |xs| && StrideForward(Reverse(xs), m)[j] == xs[|xs| - 1 - j * m]
  {
    StrideForwardAt(Reverse(xs), m, j);
  }

  lemma NegateProduct(a: int, b: int)
    ensures a * -b == -(a * b)
  {
  }

  /** The jump menu keeps the levels without "The End", each split at "-@". */
  function JumpEntries(levels: seq<string>): (r: seq<seq<string>>)
    ensures |r| <= |levels|
    decreases |levels|
  {
    if |levels| == 0 then []
    else (if Contains(levels[0], "The End") then [] else [SplitSep(levels[0], "-@")]) + JumpEntries(levels[1..])
  }

  lemma {:induction false} JumpEntriesMembers(levels: seq<string>, x: seq<string>)
    ensures x in JumpEntries(levels) <==>
            exists i :: 0 <= i < |levels| && !Contains(levels[i], "The End") && SplitSep(levels[i], "-@") == x
    decreases |levels|
  {
    if |levels| > 0 {
      JumpEntriesMembers(levels[1..], x);
      if x in JumpEntries(levels[1..]) {
        var i :| 0 <= i < |levels[1..]| && !Contains(levels[1..][i], "The End") && SplitSep(levels[1..][i], "-@") == x;
        assert levels[i + 1] == levels[1..][i];
      }
      if exists i :: 0 <= i < |levels| && !Contains(levels[i], "The End") && SplitSep(levels[i], "-@") == x {
        var i :| 0 <= i < |levels| && !Contains(levels[i], "The End") && SplitSep(levels[i], "-@") == x;
        if i > 0 {
          assert levels[1..][i - 1] == levels[i];
        }
      }
    }
  }

  /** The menu of a concatenation is the menus of the parts in turn. */
  lemma {:induction false} JumpEntriesAppend(a: seq<string>, b: seq<string>)
    ensures JumpEntries(a + b) == JumpEntries(a) + JumpEntries(b)
    decreases |a|
  {
    if |a| > 0 {
      assert (a + b)[0] == a[0] && (a + b)[1..] == a[1..] + b;
      JumpEntriesAppend(a[1..], b);
    } else {
      assert a + b == b;
    }
  }

  /** Without "The End" every level is offered, in order, split at "-@". */
  lemma {:induction false} JumpEntriesAt(levels: seq<string>)
    requires forall i :: 0 <= i < |levels| ==> !Contains(levels[i], "The End")
    ensures |JumpEntries(levels)| == |levels|
    ensures forall i :: 0 <= i < |levels| ==> JumpEntries(levels)[i] == SplitSep(levels[i], "-@")
    decreases |levels|
  {
    if |levels| > 0 {
      assert forall i :: 0 <= i < |levels[1..]| ==> levels[1..][i] == levels[i + 1];
      JumpEntriesAt(levels[1..]);
      assert JumpEntries(levels) == [SplitSep(levels[0], "-@")] + JumpEntries(levels[1..]);
    }
  }

  /** A level without "The End" is offered right after the entries of the
      levels before it, and a level with it is not offered at all. */
  lemma JumpEntryPosition(levels: seq<string>, j: nat)
    requires j < |levels|
    ensures var before := |JumpEntries(levels[..j])|;
            if Contains(levels[j], "The End") then JumpEntries(levels[..j + 1]) == JumpEntries(levels[..j])
            else before < |JumpEntries(levels)| && JumpEntries(levels)[before] == SplitSep(levels[j], "-@")
  {
    assert levels[..j + 1] == levels[..j] + [levels[j]];
    assert levels == levels[..j + 1] + levels[j + 1..];
    JumpEntriesAppend(levels[..j], [levels[j]]);
    JumpEntriesAppend(levels[..j + 1], levels[j + 1..]);
  }

  /** QQuizKernel.get_all_levels: None when jumping is disabled; otherwise the
      levels at the configured stride, without "The End", split at "-@". */
  function GetAllLevels(k: Kernel): (r: Option<seq<seq<string>>>)
    ensures r.None? <==> k.Config().changeLevelStep == 0
    ensures r.Some? ==> forall x :: x in r.value <==>
              exists i :: && 0 <= i < |Slice(k.Levels(), k.Config().changeLevelStep)|
                          && var l := Slice(k.Levels(), k.Config().changeLevelStep)[i];
                             !Contains(l, "The End") && SplitSep(l, "-@") == x
    ensures r.Some? ==> r.value == JumpEntries(Slice(k.Levels(), k.Config().changeLevelStep))
  {
    var step := k.Config().changeLevelStep;
    if step == 0 then None
    else
      var picked := Slice(k.Levels(), step);
      assert forall x :: x in JumpEntries(picked) <==>
               exists i :: 0 <= i < |picked| && !Contains(picked[i], "The End") && SplitSep(picked[i], "-@") == x
        by {
          forall x { JumpEntriesMembers(picked, x); }
        }
      Some(JumpEntries(picked))
  }

  /** When no level is "The End", entry j of the jump menu is the level at
      index j·step, counted from the end for a negative step, split at "-@". */
  lemma JumpMenuOrder(k: Kernel, j: nat)
    requires k.Config().changeLevelStep != 0
    requires forall i :: 0 <= i < |k.Levels()| ==> !Contains(k.Levels()[i], "The End")
    requires j < |Slice(k.Levels(), k.Config().changeLevelStep)|
    ensures GetAllLevels(k).Some?
    ensures |GetAllLevels(k).value| == |Slice(k.Levels(), k.Config().changeLevelStep)|
    ensures var step := k.Config().changeLevelStep;
            step > 0 ==> j * step < |k.Levels()| && GetAllLevels(k).value[j] == SplitSep(k.Levels()[j * step], "-@")
    ensures var step := k.Config().changeLevelStep; var n := |k.Levels()|;
            step < 0 ==> 0 <= n - 1 + j * step && GetAllLevels(k).value[j] == SplitSep(k.Levels()[n - 1 + j * step], "-@")
  {
    var levels := k.Levels();
    var step := k.Config().changeLevelStep;
    var picked := Slice(levels, step);
    forall i | 0 <= i < |picked|
      ensures !Contains(picked[i], "The End")
    {
      SliceAt(levels, step, i);
    }
    JumpEntriesAt(picked);
    SliceAt(levels, step, j);
  }

  /** Entry j of the stride, when it is not "The End", is offered after the
      entries of the strided levels before it: the level at index j·step,
      counted from the end for a negative step, split at "-@". */
  lemma JumpMenuPosition(k: Kernel, j: nat)
    requires k.Config().changeLevelStep != 0
    requires j < |Slice(k.Levels(), k.Config().changeLevelStep)|
    requires !Contains(Slice(k.Levels(), k.Config().changeLevelStep)[j], "The End")
    ensures var step := k.Config().changeLevelStep; var n := |k.Levels()|;
            var at := |JumpEntries(Slice(k.Levels(), step)[..j])|;
            && GetAllLevels(k).Some? && at < |GetAllLevels(k).value|
            && (step > 0 ==> j * step < n && GetAllLevels(k).value[at] == SplitSep(k.Levels()[j * step], "-@"))
            && (step < 0 ==> 0 <= n - 1 + j * step && GetAllLevels(k).value[at] == SplitSep(k.Levels()[n - 1 + j * step], "-@"))
  {
    JumpEntryPosition(Slice(k.Levels(), k.Config().changeLevelStep), j);
    SliceAt(k.Levels(), k.Config().changeLevelStep, j);
  }

  /** With a step of 3 over nine levels the jump menu offers levels 0, 3 and 6. */
  lemma StrideOfThreeOverNine(levels: seq<string>)
    requires |levels| == 9
    ensures Slice(levels, 3) == [levels[0], levels[3], levels[6]]
  {
    var r := Slice(levels, 3);
    StrideForwardLength(levels, 3);
    assert |r| == 3;
    SliceAt(levels, 3, 0);
    SliceAt(levels, 3, 1);
    SliceAt(levels, 3, 2);
  }

  /** With a step of -4 over nine levels the menu offers levels 8, 4 and 0. */
  lemma StrideOfMinusFourOverNine(levels: seq<string>)
    requires |levels| == 9
    ensures Slice(levels, -4) == [levels[8], levels[4], levels[0]]
  {
    var r := Slice(levels, -4);
    StrideForwardLength(Reverse(levels), 4);
    assert |r| == 3;
    SliceAt(levels, -4, 0);
    SliceAt(levels, -4, 1);
    SliceAt(levels, -4, 2);
  }

  // ---------------------------------------------------------------------------
  // Disclosure

  const NoHints: string := "Для этой загадки нет подсказок"
  const AnswerHidden: string := "В данной игре нельзя посмотреть ответ"

  /** QQuizKernel.get_hint: all hints joined by ",", sentences capitalised,
      unless the last hint is empty. */
  function GetHint(k: Kernel): (r: string)
    requires k.Parsed()
    ensures Last(k.answers.hints) == "" ==> r == NoHints
    ensures Last(k.answers.hints) != "" ==>
              var joined := JoinWith(k.answers.hints, ",");
              |r| == |joined| && Lower(r) == Lower(joined)
              && forall i :: 0 <= i < |joined| ==>
                   r[i] == if IsCapLetter(joined[i]) && StartsSentence(joined, i) then UpperChar(joined[i]) else joined[i]
  {
    if Last(k.answers.hints) != "" then
      var joined := JoinWith(k.answers.hints, ",");
      CapitaliseKeepsLowerForm(joined);
      Capitalise(joined)
    else NoHints
  }

  /** QQuizKernel.get_answer: the first exact answer, sentences capitalised,
      when the game allows it. */
  function GetAnswer(k: Kernel): (r: string)
    requires k.Parsed()
    ensures !k.Config().allowToGetAnswer ==> r == AnswerHidden
    ensures k.Config().allowToGetAnswer ==>
              var a := k.answers.answers[0];
              |r| == |a| && Lower(r) == Lower(a)
              && forall i :: 0 <= i < |a| ==>
                   r[i] == if IsCapLetter(a[i]) && StartsSentence(a, i) then UpperChar(a[i]) else a[i]
  {
    if k.Config().allowToGetAnswer then
      CapitaliseKeepsLowerForm(k.answers.answers[0]);
      Capitalise(k.answers.answers[0])
    else AnswerHidden
  }

  /** Lower-casing a character twice changes nothing more. */
  lemma LowerCharIdempotent(c: char)
    ensures LowerChar(LowerChar(c)) == LowerChar(c)
  {
  }

  /** Every character of s is already in lower case. */
  predicate IsLowered(s: string) {
    forall k :: 0 <= k < |s| ==> LowerChar(s[k]) == s[k]
  }

  lemma LowerIsLowered(s: string)
    ensures IsLowered(Lower(s))
  {
    forall k | 0 <= k < |s|
      ensures LowerChar(Lower(s)[k]) == Lower(s)[k]
    {
      LowerCharIdempotent(s[k]);
    }
  }

  lemma StripKeepsLowered(s: string)
    requires IsLowered(s)
    ensures IsLowered(Strip(s))
  {
    StripTrims(s);
    LoweredInfix(s, Strip(s), StripOffset(s));
  }

  lemma LoweredInfix(s: string, t: string, i: int)
    requires IsLowered(s) && TrimmedAt(s, t, i)
    ensures IsLowered(t)
  {
    forall k | 0 <= k < |t|
      ensures LowerChar(t[k]) == t[k]
    {
      assert t[k] == s[i + k];
    }
  }

  lemma NormOfLoweredWithoutYo(t: string)
    requires IsLowered(t)
    ensures var f := ReplaceChar(t, SmallYo, SmallYe); Norm(f) == f
  {
    var f := ReplaceChar(t, SmallYo, SmallYe);
    NormPointwise(f);
    forall k | 0 <= k < |f|
      ensures Norm(f)[k] == f[k]
    {
      assert LowerChar(t[k]) == t[k];
    }
  }

  /** An answer form is already normalised. */
  lemma AnswerFormNormal(line: string)
    ensures Norm(AnswerForm(line)) == AnswerForm(line)
  {
    LowerIsLowered(line);
    StripKeepsLowered(Lower(line));
    NormOfLoweredWithoutYo(Strip(Lower(line)));
  }

  /** When a game discloses answers, the disclosed answer is accepted. */
  lemma DisclosedAnswerAccepted(k: Kernel, lines: seq<string>)
    requires k.answers == ParseAnswers(lines) && k.Config().allowToGetAnswer
    ensures CheckAnswer(k.answers, GetAnswer(k)) == Correct
  {
    var a := k.answers.answers[0];
    var r := GetAnswer(k);
    assert Lower(r) == Lower(a);
    assert Norm(r) == Norm(a);
    if |AnswersOf(lines)| > 0 {
      AnswersOfMembers(lines, a);
      var i :| AnswerAt(lines, i, a);
      AnswerFormNormal(lines[i]);
    }
  }
}
