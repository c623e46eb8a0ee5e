/** The puzzle-authoring bot: a per-chat state machine that collects the
    messages of a puzzle, then its answer lines, and saves both. The chat's
    metadata is a record; Telegram replies are notices, and an exception is a
    crash that leaves whatever the handler had already changed. */
module Author {
  import opened Results
  import opened Strings
  import opened ReadWrite
  import opened QuizKernel

  /** The 'action' key: None, 'question' or 'answer'. */
  datatype Action = Idle | Question | Answer

  /** What the bot answers, one constructor per reply text. */
  datatype Notice =
    | FinishFirst                  // "Please finish your question or answer ..."
    | NameInvalid(name: string)    // "<name> is not valid"
    | GoAhead                      // "Go ahead! Send your puzzle ..."
    | EditingNotAllowed
    | AnswerOnlyText
    | SpecifyAnswerFirst
    | Thanks
    | BeginQuestionFirst
    | EnterAnswers
    | NewName(name: string)
    | NameSet                      // the older bot's "New name set"
    | AlreadySaved
    | DeletedFromBuffer
    | DeletedQuestion
    | NothingToDelete
    | NothingInBuffer
    | NameLine(shown: string)      // "Name: " + name with spaces for underscores
    | PuzzlePreview(outputs: seq<Output>)
    | AnswerSummary(text: string)
    | WritingTo(folder: string)
    | Welcome

  /** Why a handler raised. */
  datatype Crash =
    | EmptyBuffer          // buffer[-1] on an empty list
    | UnknownMessageKind   // get_message_meta returned None
    | PreviewSendFailed(error: SendError)
    | MissingKey           // the older bot reads a key no /start has set
    | GuessWithoutReply    // the older bot's "~guess" with no second '~'
    | EditedMessage        // the older bot reads update.message of an edit
    | UsernameMissing      // save_to_file joins a username the sender does not have

  // ---------------------------------------------------------------------------
  // Metadata

  /** A chat's stored metadata, None for an absent key. */
  datatype AuthorMeta = AuthorMeta(
    puzzleBuffer: Option<seq<seq<Item>>>,
    answerBuffer: Option<seq<seq<string>>>,
    action: Option<Action>,
    questionNum: Option<map<string, nat>>,
    puzzleFolder: Option<string>,
    name: Option<string>)

  /** The metadata once every key is present: the puzzles and answer lists
      being written (the current one last), the state, the per-folder
      counters, the folder written to and the puzzle's name. */
  datatype Draft = Draft(
    puzzles: seq<seq<Item>>,
    answers: seq<seq<string>>,
    action: Action,
    counters: map<string, nat>,
    folder: string,
    name: string)

  function ToMeta(d: Draft): AuthorMeta {
    AuthorMeta(Some(d.puzzles), Some(d.answers), Some(d.action), Some(d.counters), Some(d.folder), Some(d.name))
  }

  /** QAuthor.__get_chat_meta: each absent key gets its default; a present key
      is kept. */
  function GetAuthorMeta(m: AuthorMeta, defaultGame: string): (d: Draft)
    ensures m.puzzleBuffer.Some? ==> d.puzzles == m.puzzleBuffer.value
    ensures m.puzzleBuffer.None? ==> d.puzzles == []
    ensures m.answerBuffer.Some? ==> d.answers == m.answerBuffer.value
    ensures m.answerBuffer.None? ==> d.answers == []
    ensures m.action.Some? ==> d.action == m.action.value
    ensures m.action.None? ==> d.action == Idle
    ensures m.questionNum.Some? ==> d.counters == m.questionNum.value
    ensures m.questionNum.None? ==> d.counters == map[]
    ensures d.folder == m.puzzleFolder.GetOr(defaultGame)
    ensures d.name == m.name.GetOr("")
  {
    Draft(m.puzzleBuffer.GetOr([]), m.answerBuffer.GetOr([]), m.action.GetOr(Idle),
          m.questionNum.GetOr(map[]), m.puzzleFolder.GetOr(defaultGame), m.name.GetOr(""))
  }

  /** Filling metadata that already has every key changes nothing. */
  lemma GetAuthorMetaKeepsFilled(d: Draft, defaultGame: string)
    ensures GetAuthorMeta(ToMeta(d), defaultGame) == d
  {
  }

  /** A fresh chat starts idle with nothing buffered. */
  lemma FreshChatIsIdle(defaultGame: string)
    ensures var d := GetAuthorMeta(AuthorMeta(None, None, None, None, None, None), defaultGame);
            d.action == Idle && d.puzzles == [] && d.answers == [] && d.folder == defaultGame && d.name == ""
            && Inv(d)
  {
  }

  // ---------------------------------------------------------------------------
  // The state invariant

  /** In a question or answer state both buffers hold a current entry, and
      in the answer state the current puzzle is not empty. */
  predicate Inv(d: Draft) {
    && (d.action != Idle ==> |d.puzzles| > 0 && |d.answers| > 0)
    && (d.action == Answer ==> |Last(d.puzzles)| > 0)
  }

  /** The result of one command: the new draft, the replies, the puzzle
      saved by /end, and the exception raised, if any. */
  datatype Outcome = Outcome(draft: Draft, notices: seq<Notice>, saved: Option<Saved>, crash: Option<Crash>)

  function Reply(d: Draft, n: Notice): Outcome {
    Outcome(d, [n], None, None)
  }

  // ---------------------------------------------------------------------------
  // Buffers

  /** Appends a fresh entry and drops the oldest one when more than one
      remains, as list.append then list.pop(0). */
  function StartEntry<T>(xs: seq<seq<T>>): (r: seq<seq<T>>)
    ensures |r| >= 1 && Last(r) == []
    ensures |xs| <= 1 ==> |r| == 1
    ensures |xs| >= 1 ==> |r| == |xs| && r[..|r| - 1] == xs[1..]
  {
    var ys := xs + [[]];
    if |ys| > 1 then ys[1..] else ys
  }

  /** Replaces the last entry. */
  function SetLast<T>(xs: seq<T>, v: T): (r: seq<T>)
    requires |xs| > 0
    ensures |r| == |xs| && Last(r) == v && r[..|xs| - 1] == xs[..|xs| - 1]
  {
    xs[..|xs| - 1] + [v]
  }

  function DropLast<T>(xs: seq<T>): (r: seq<T>)
    requires |xs| > 0
    ensures |r| == |xs| - 1 && forall i :: 0 <= i < |r| ==> r[i] == xs[i]
  {
    xs[..|xs| - 1]
  }

  // ---------------------------------------------------------------------------
  // Names

  /** The characters a puzzle name may not hold. */
  const RestrictedChars: set<char> := {'<', ' ', '>', '|', '\\', ':', '(', ')', '&', ';', '.', ',', '-', '?', '*'}

  /** QAuthor.__check_name. */
  function CheckName(name: string): (ok: bool)
    ensures ok <==> forall i :: 0 <= i < |name| ==> name[i] !in RestrictedChars
    decreases |name|
  {
    if |name| == 0 then true
    else if name[0] in RestrictedChars then false
    else
      var ok := CheckName(name[1..]);
      assert forall i :: 0 < i < |name| ==> name[i] == name[1..][i - 1];
      ok
  }

  /** A string without c has no infix starting with c. */
  lemma {:induction false} NoInfixStartingWith(s: string, c: char, rest: string)
    requires c !in s
    ensures !Contains(s, [c] + rest)
    decreases |s|
  {
    if |s| > 0 {
      assert s[0] != c;
      NoInfixStartingWith(s[1..], c, rest);
    }
  }

  /** A valid non-empty name is announced as "N+1. name" once saved: it
      holds neither '-' nor '/', so its directory splits back at "-@". */
  lemma ValidNameTitle(userDir: string, n: nat, name: string)
    requires CheckName(name) && name != "" && '/' !in name
    ensures Title(PathJoin(userDir, PuzzleDirName(n, name)))
            == Ok(Some(IntToString(n + 1) + ". " + UnderscoresToSpaces(name)))
  {
    assert '-' !in name;
    NoInfixStartingWith(name, '-', "@");
    assert "-@" == ['-'] + "@";
    SavedPuzzleTitle(userDir, n, name);
  }

  // ---------------------------------------------------------------------------
  // Commands

  /** QAuthor.__new: refused unless idle and the name (the arguments joined
      by '_') is valid; otherwise a fresh current entry in both buffers. */
  function New(d: Draft, args: seq<string>): (r: Outcome)
    ensures r.crash.None? && r.saved.None?
    ensures d.action != Idle ==> r == Reply(d, FinishFirst)
    ensures d.action == Idle && !CheckName(JoinWith(args, "_")) ==> r == Reply(d, NameInvalid(JoinWith(args, "_")))
    ensures d.action == Idle && CheckName(JoinWith(args, "_")) ==>
              && r.draft.action == Question && r.draft.name == JoinWith(args, "_")
              && |r.draft.puzzles| > 0 && |r.draft.answers| > 0
              && Last(r.draft.puzzles) == [] && Last(r.draft.answers) == []
              && (|d.puzzles| <= 1 ==> |r.draft.puzzles| == 1) && (|d.answers| <= 1 ==> |r.draft.answers| == 1)
              && r.draft.counters == d.counters && r.draft.folder == d.folder
              && r.notices == [GoAhead]
    ensures Inv(r.draft)  || r.draft == d
  {
    if d.action != Idle then Reply(d, FinishFirst)
    else
      var name := JoinWith(args, "_");
      if !CheckName(name) then Reply(d, NameInvalid(name))
      else Reply(d.(name := name, action := Question, puzzles := StartEntry(d.puzzles), answers := StartEntry(d.answers)), GoAhead)
  }

  /** QAuthor.__data_getter: an edit is refused; in the question state the
      message becomes one more item of the current puzzle; in the answer
      state a text becomes one more answer line and anything else is
      refused; when idle nothing happens. */
  function DataGetter(d: Draft, msg: Option<Message>): (r: Outcome)
    ensures r.saved.None?
    ensures msg.None? ==> r == Reply(d, EditingNotAllowed)
    ensures msg.Some? && d.action == Idle ==> r == Outcome(d, [], None, None)
    ensures msg.Some? && d.action == Question && |d.puzzles| > 0 ==>
              match PushPuzzle(msg.value, Last(d.puzzles))
              case None => r.crash == Some(UnknownMessageKind) && r.draft == d
              case Some(p) => r == Outcome(d.(puzzles := SetLast(d.puzzles, p)), [], None, None)
    ensures msg.Some? && d.action == Answer && |msg.value.text| == 0 ==> r == Reply(d, AnswerOnlyText)
    ensures msg.Some? && d.action == Answer && |msg.value.text| > 0 && |d.answers| > 0 ==>
              r == Outcome(d.(answers := SetLast(d.answers, PushAnswer(msg.value, Last(d.answers)))), [], None, None)
    ensures Inv(d) ==> Inv(r.draft)
    ensures Inv(d) && (msg.Some? && d.action == Question ==> exists t :: Present(msg.value, t)) ==> r.crash.None?
  {
    match msg
    case None => Reply(d, EditingNotAllowed)
    case Some(m) =>
      match d.action
      case Idle => Outcome(d, [], None, None)
      case Question =>
        if |d.puzzles| == 0 then Outcome(d, [], None, Some(EmptyBuffer))
        else (match PushPuzzle(m, Last(d.puzzles))
          case None => Outcome(d, [], None, Some(UnknownMessageKind))
          case Some(p) => Outcome(d.(puzzles := SetLast(d.puzzles, p)), [], None, None))
      case Answer =>
        if |m.text| == 0 then Reply(d, AnswerOnlyText)
        else if |d.answers| == 0 then Outcome(d, [], None, Some(EmptyBuffer))
        else
          var r := Outcome(d.(answers := SetLast(d.answers, PushAnswer(m, Last(d.answers)))), [], None, None);
          assert d.puzzles == r.draft.puzzles;
          r
  }

  /** Where /end writes and how media is kept; the sender's username is
      optional in Telegram. */
  datatype Storage = Storage(username: Option<string>, workingPath: string, saveMedia: bool)

  /** QAuthor.__end: refused unless in the answer state with at least one
      answer line; otherwise the state goes idle, the author is thanked, and
      the current puzzle and answers are saved. Saving marks the buffered
      media records as downloaded, in place. A sender without a username is
      thanked and then the save raises, so the puzzle is lost. */
  function End(d: Draft, st: Storage): (r: Outcome)
    ensures d.action != Answer ==> r == Reply(d, SpecifyAnswerFirst)
    ensures d.action == Answer && |d.answers| > 0 && |Last(d.answers)| == 0 ==> r == Reply(d, SpecifyAnswerFirst)
    ensures d.action == Answer && |d.answers| > 0 && |Last(d.answers)| > 0 && |d.puzzles| > 0 ==>
              match SaveToFile(Last(d.puzzles), Last(d.answers), st.username, d.folder, d.counters,
                               d.name, st.workingPath, st.saveMedia)
              case Ok(s) =>
                && r.crash.None? && r.saved == Some(s) && r.notices == [Thanks]
                && r.draft == d.(action := Idle, counters := s.counters, puzzles := SetLast(d.puzzles, s.items))
              case Err(_) =>
                r == Outcome(d.(action := Idle), [Thanks], None, Some(UsernameMissing))
    ensures r.saved.Some? ==> |d.answers| > 0 && r.saved.value.answers == Last(d.answers) && |Last(d.answers)| > 0
                              && Counter(r.draft.counters, d.folder) == Counter(d.counters, d.folder) + 1
                              && st.username.Some?
    ensures Inv(d) ==> Inv(r.draft)
    ensures Inv(d) ==> (r.crash.Some? <==> d.action == Answer && |Last(d.answers)| > 0 && st.username.None?)
  {
    if d.action != Answer then Reply(d, SpecifyAnswerFirst)
    else if |d.answers| == 0 then Outcome(d, [], None, Some(EmptyBuffer))
    else if |Last(d.answers)| < 1 then Reply(d, SpecifyAnswerFirst)
    else
      var d1 := d.(action := Idle);
      if |d.puzzles| == 0 then Outcome(d1, [Thanks], None, Some(EmptyBuffer))
      else
        match SaveToFile(Last(d.puzzles), Last(d.answers), st.username, d.folder, d.counters,
                         d.name, st.workingPath, st.saveMedia)
        case Err(_) => Outcome(d1, [Thanks], None, Some(UsernameMissing))
        case Ok(s) =>
          Outcome(d1.(counters := s.counters, puzzles := SetLast(d.puzzles, s.items)), [Thanks], Some(s), None)
  }

  /** QAuthor.__set_answer: from the question state with a non-empty current
      puzzle to the answer state; otherwise refused. */
  function SetAnswer(d: Draft): (r: Outcome)
    ensures r.saved.None?
    ensures d.action != Question ==> r == Reply(d, BeginQuestionFirst)
    ensures d.action == Question && |d.puzzles| > 0 ==>
              if |Last(d.puzzles)| == 0 then r == Reply(d, BeginQuestionFirst)
              else r == Reply(d.(action := Answer), EnterAnswers)
    ensures Inv(d) ==> Inv(r.draft) && r.crash.None?
  {
    if d.action != Question then Reply(d, BeginQuestionFirst)
    else if |d.puzzles| == 0 then Outcome(d, [], None, Some(EmptyBuffer))
    else if |Last(d.puzzles)| == 0 then Reply(d, BeginQuestionFirst)
    else Reply(d.(action := Answer), EnterAnswers)
  }

  /** QAuthor.__set_name: renames while a puzzle is being written. */
  function SetName(d: Draft, args: seq<string>): (r: Outcome)
    ensures r.crash.None? && r.saved.None?
    ensures d.action == Idle ==> r == Reply(d, AlreadySaved)
    ensures d.action != Idle && CheckName(JoinWith(args, "_")) ==>
              r == Reply(d.(name := JoinWith(args, "_")), NewName(JoinWith(args, "_")))
    ensures d.action != Idle && !CheckName(JoinWith(args, "_")) ==> r == Reply(d, NameInvalid(JoinWith(args, "_")))
    ensures Inv(d) ==> Inv(r.draft)
  {
    if d.action == Idle then Reply(d, AlreadySaved)
    else
      var name := JoinWith(args, "_");
      if CheckName(name) then Reply(d.(name := name), NewName(name)) else Reply(d, NameInvalid(name))
  }

  /** QAuthor.__delete_last_update: drops the last item of the active
      buffer's current entry, if there is one. */
  function DeleteLastUpdate(d: Draft): (r: Outcome)
    ensures r.saved.None?
    ensures d.action == Question && |d.puzzles| > 0 && |Last(d.puzzles)| > 0 ==>
              r == Reply(d.(puzzles := SetLast(d.puzzles, DropLast(Last(d.puzzles)))), DeletedFromBuffer)
    ensures d.action == Answer && |d.answers| > 0 && |Last(d.answers)| > 0 ==>
              r == Reply(d.(answers := SetLast(d.answers, DropLast(Last(d.answers)))), DeletedFromBuffer)
    ensures (|| d.action == Idle
             || (d.action == Question && |d.puzzles| > 0 && |Last(d.puzzles)| == 0)
             || (d.action == Answer && |d.answers| > 0 && |Last(d.answers)| == 0)) ==> r == Reply(d, NothingToDelete)
    ensures r.crash.None? ==> r.draft.action == d.action
    ensures Inv(d) ==> Inv(r.draft) && r.crash.None?
  {
    if d.action == Question && |d.puzzles| == 0 then Outcome(d, [], None, Some(EmptyBuffer))
    else if d.action == Question && |Last(d.puzzles)| > 0 then
      Reply(d.(puzzles := SetLast(d.puzzles, DropLast(Last(d.puzzles)))), DeletedFromBuffer)
    else if d.action == Answer && |d.answers| == 0 then Outcome(d, [], None, Some(EmptyBuffer))
    else if d.action == Answer && |Last(d.answers)| > 0 then
      var r := Reply(d.(answers := SetLast(d.answers, DropLast(Last(d.answers)))), DeletedFromBuffer);
      assert r.draft.puzzles == d.puzzles;
      r
    else Reply(d, NothingToDelete)
  }

  /** QAuthor.__delete_last_question: in the question state the current
      puzzle is dropped, in the answer state the current puzzle and answer
      list; the state goes idle exactly when something was dropped. */
  function DeleteLastQuestion(d: Draft): (r: Outcome)
    ensures r.saved.None?
    ensures d.action == Question && |d.puzzles| > 0 ==>
              r == Reply(d.(puzzles := DropLast(d.puzzles), action := Idle), DeletedQuestion)
    ensures d.action == Answer && |d.answers| > 0 && |d.puzzles| > 0 ==>
              r == Reply(d.(puzzles := DropLast(d.puzzles), answers := DropLast(d.answers), action := Idle), DeletedQuestion)
    ensures r.crash.None? ==> (r.draft.action == Idle <==> d.action == Idle || r.notices == [DeletedQuestion])
    ensures r.crash.None? && r.notices == [NothingToDelete] ==> r.draft == d
    ensures Inv(d) ==> Inv(r.draft) && r.crash.None?
  {
    if d.action == Question && |d.puzzles| > 0 then
      Reply(d.(puzzles := DropLast(d.puzzles), action := Idle), DeletedQuestion)
    else if d.action == Answer && |d.answers| > 0 then
      if |d.puzzles| == 0 then Outcome(d, [], None, Some(EmptyBuffer))
      else Reply(d.(puzzles := DropLast(d.puzzles), answers := DropLast(d.answers), action := Idle), DeletedQuestion)
    else Reply(d, NothingToDelete)
  }

  /** QAuthor.__hard_reset: idle, with both buffers emptied; counters,
      folder and name stay. */
  function HardReset(d: Draft): (r: Outcome)
    ensures r.draft.action == Idle && r.draft.puzzles == [] && r.draft.answers == []
    ensures r.draft.counters == d.counters && r.draft.folder == d.folder && r.draft.name == d.name
    ensures Inv(r.draft) && r.crash.None? && r.notices == []
  {
    Outcome(d.(action := Idle, puzzles := [], answers := []), [], None, None)
  }

  /** QAuthor.__game_folder_button, reading the folder back as everything
      after the first '-' of the button data. */
  function GameFolderButton(d: Draft, data: string): (r: Outcome)
    ensures r.draft == d.(folder := FolderFromButton(data)) && r.notices == [WritingTo(FolderFromButton(data))]
    ensures Inv(d) ==> Inv(r.draft)
  {
    var folder := FolderFromButton(data);
    Reply(d.(folder := folder), WritingTo(folder))
  }

  /** Choosing a folder from the offered buttons selects exactly that folder. */
  lemma GameFolderButtonSelects(d: Draft, dir: string)
    ensures GameFolderButton(d, FolderButton(dir).data).draft.folder == dir
  {
    FolderButtonRoundTrip(dir);
  }

  // ---------------------------------------------------------------------------
  // Preview

  /** The answer lines sorted for display, unnormalised: answers, guesses as
      (trigger, reply), and hint texts, each in line order. */
  datatype PreviewEntries = PreviewEntries(answers: seq<string>, guesses: seq<(string, string)>, hints: seq<string>)

  function PreviewOf(lines: seq<string>): (p: PreviewEntries)
    decreases |lines|
  {
    if |lines| == 0 then PreviewEntries([], [], [])
    else
      var rest := PreviewOf(lines[1..]);
      match Classify(lines[0])
      case GuessLine(t, reply) => rest.(guesses := [(t, reply)] + rest.guesses)
      case HintLine(h) => rest.(hints := [h] + rest.hints)
      case AnswerLine(a) => rest.(answers := [a] + rest.answers)
  }

  function MapAnswerForm(xs: seq<string>): seq<string>
    decreases |xs|
  {
    if |xs| == 0 then [] else [AnswerForm(xs[0])] + MapAnswerForm(xs[1..])
  }

  function MapHintForm(xs: seq<string>): seq<string>
    decreases |xs|
  {
    if |xs| == 0 then [] else [HintForm(xs[0])] + MapHintForm(xs[1..])
  }

  function MapGuessForm(xs: seq<(string, string)>): seq<Guess>
    decreases |xs|
  {
    if |xs| == 0 then [] else [GuessForm(xs[0].0, xs[0].1)] + MapGuessForm(xs[1..])
  }

  /** The preview shows what the game will use: normalising the previewed
      answers gives exactly the kernel's exact answers. */
  lemma {:induction false} PreviewAnswersMatchKernel(lines: seq<string>)
    ensures MapAnswerForm(PreviewOf(lines).answers) == AnswersOf(lines)
    decreases |lines|
  {
    if |lines| > 0 {
      PreviewAnswersMatchKernel(lines[1..]);
      var rest := PreviewOf(lines[1..]);
      var k := Classify(lines[0]);
      assert AnswersOf(lines) == (if k.AnswerLine? then [AnswerForm(lines[0])] else []) + AnswersOf(lines[1..]);
      if k.AnswerLine? {
        assert PreviewOf(lines).answers == [lines[0]] + rest.answers;
        assert ([lines[0]] + rest.answers)[1..] == rest.answers;
      } else {
        assert PreviewOf(lines).answers == rest.answers;
      }
    }
  }

  /** Normalising the previewed hints gives exactly the kernel's hints. */
  lemma {:induction false} PreviewHintsMatchKernel(lines: seq<string>)
    ensures MapHintForm(PreviewOf(lines).hints) == HintsOf(lines)
    decreases |lines|
  {
    if |lines| > 0 {
      PreviewHintsMatchKernel(lines[1..]);
      var rest := PreviewOf(lines[1..]);
      var k := Classify(lines[0]);
      assert HintsOf(lines) == (if k.HintLine? then [HintForm(k.text)] else []) + HintsOf(lines[1..]);
      if k.HintLine? {
        assert PreviewOf(lines).hints == [k.text] + rest.hints;
        assert ([k.text] + rest.hints)[1..] == rest.hints;
      } else {
        assert PreviewOf(lines).hints == rest.hints;
      }
    }
  }

  /** Normalising the previewed guesses gives exactly the kernel's guesses. */
  lemma {:induction false} PreviewGuessesMatchKernel(lines: seq<string>)
    ensures MapGuessForm(PreviewOf(lines).guesses) == GuessesOf(lines)
    decreases |lines|
  {
    if |lines| > 0 {
      PreviewGuessesMatchKernel(lines[1..]);
      var rest := PreviewOf(lines[1..]);
      var k := Classify(lines[0]);
      assert GuessesOf(lines) == (if k.GuessLine? then [GuessForm(k.trigger, k.reply)] else []) + GuessesOf(lines[1..]);
      if k.GuessLine? {
        assert PreviewOf(lines).guesses == [(k.trigger, k.reply)] + rest.guesses;
        assert ([(k.trigger, k.reply)] + rest.guesses)[1..] == rest.guesses;
      } else {
        assert PreviewOf(lines).guesses == rest.guesses;
      }
    }
  }

  function GuessText(g: (string, string)): string {
    g.0 + " \"" + g.1 + "\""
  }

  function GuessTexts(gs: seq<(string, string)>): (r: seq<string>)
    ensures |r| == |gs| && forall i :: 0 <= i < |gs| ==> r[i] == GuessText(gs[i])
  {
    seq(|gs|, i requires 0 <= i < |gs| => GuessText(gs[i]))
  }

  /** The three summary lines of a preview. */
  function SummaryText(p: PreviewEntries): string {
    "Answers: " + JoinWith(p.answers, ", ") + "\n"
    + "Guess: " + JoinWith(GuessTexts(p.guesses), ", ") + "\n"
    + "Hint: " + JoinWith(p.hints, ", ")
  }

  /** QAuthor.__preview: nothing to show when idle; otherwise the name, the
      current puzzle as it would be sent, and in the answer state a summary
      of its answer lines. The draft never changes. */
  function Preview(d: Draft): (r: Outcome)
    ensures r.draft == d && r.saved.None?
    ensures d.action == Idle ==> r.notices == [NothingInBuffer]
    ensures d.action != Idle && r.crash.None? ==>
              && |d.puzzles| > 0 && |r.notices| > 0
              && (d.name != "" && |Last(d.puzzles)| > 0 <==> r.notices[0] == NameLine(UnderscoresToSpaces(d.name)))
              && (|Last(d.puzzles)| == 0 ==> r.notices[0] == NothingInBuffer)
              && (|Last(d.puzzles)| > 0 ==> PuzzlePreview(Send(Last(d.puzzles), "", true).value) in r.notices)
              && (d.action == Answer <==> |d.answers| > 0 && Last(r.notices) == AnswerSummary(SummaryText(PreviewOf(Last(d.answers)))))
    ensures Inv(d) && d.action != Idle ==>
              (r.crash.None? <==> |Last(d.puzzles)| == 0 || Send(Last(d.puzzles), "", true).Ok?)
  {
    if d.action == Idle then Reply(d, NothingInBuffer)
    else if |d.puzzles| == 0 then Outcome(d, [], None, Some(EmptyBuffer))
    else
      var current := Last(d.puzzles);
      var nameLine := if d.name != "" && |current| > 0 then [NameLine(UnderscoresToSpaces(d.name))] else [];
      var shown :=
        if |current| == 0 then Ok([NothingInBuffer])
        else match Send(current, "", true)
          case Err(e) => Err(e)
          case Ok(outs) => Ok([PuzzlePreview(outs)]);
      match shown
      case Err(e) => Outcome(d, nameLine, None, Some(PreviewSendFailed(e)))
      case Ok(sent) =>
        if d.action != Answer then Outcome(d, nameLine + sent, None, None)
        else if |d.answers| == 0 then Outcome(d, nameLine + sent, None, Some(EmptyBuffer))
        else Outcome(d, nameLine + sent + [AnswerSummary(SummaryText(PreviewOf(Last(d.answers))))], None, None)
  }

  // ---------------------------------------------------------------------------
  // The whole round

  /** /new then one recognised message: the current puzzle holds exactly
      that message's record. */
  lemma NewThenMessage(d: Draft, args: seq<string>, puzzle: Message)
    requires Inv(d) && d.action == Idle && CheckName(JoinWith(args, "_"))
    requires exists t :: Present(puzzle, t)
    ensures var d2 := DataGetter(New(d, args).draft, Some(puzzle)).draft;
            && d2.action == Question && |d2.puzzles| > 0 && |d2.answers| > 0
            && Last(d2.answers) == [] && |Last(d2.puzzles)| == 1 && Present(puzzle, Last(d2.puzzles)[0].kind)
            && d2.name == JoinWith(args, "_") && d2.folder == d.folder && d2.counters == d.counters
  {
    var name := JoinWith(args, "_");
    var d1 := d.(name := name, action := Question, puzzles := StartEntry(d.puzzles), answers := StartEntry(d.answers));
    assert New(d, args).draft == d1;
    var p := PushPuzzle(puzzle, []);
    assert p.Some? && |p.value| == 1;
    assert Last(d1.puzzles) == [];
    var d2 := d1.(puzzles := SetLast(d1.puzzles, p.value));
    assert DataGetter(d1, Some(puzzle)) == Outcome(d2, [], None, None);
    assert Last(d2.puzzles) == p.value;
  }

  /** /setanswer then one text line then /end from there saves exactly that
      puzzle and that line, and leaves the chat idle. */
  lemma AnswerThenEnd(d2: Draft, answer: Message, st: Storage)
    requires st.username.Some?
    requires d2.action == Question && |d2.puzzles| > 0 && |d2.answers| > 0
    requires Last(d2.answers) == [] && |Last(d2.puzzles)| > 0
    requires |answer.text| > 0
    ensures var d3 := SetAnswer(d2).draft;
            var e := End(DataGetter(d3, Some(answer)).draft, st);
            && e.crash.None? && e.saved.Some? && e.draft.action == Idle
            && e.saved.value.answers == [answer.text]
            && |e.saved.value.items| == |Last(d2.puzzles)|
            && e.saved.value.dir == PathJoin(PathJoin(PathJoin(st.workingPath, d2.folder), st.username.value),
                                            PuzzleDirName(Counter(d2.counters, d2.folder), d2.name))
  {
    var d3 := SetAnswer(d2).draft;
    assert d3 == d2.(action := Answer);
    var d4 := DataGetter(d3, Some(answer)).draft;
    assert d4 == d3.(answers := SetLast(d3.answers, PushAnswer(answer, Last(d3.answers))));
    assert Last(d4.answers) == [answer.text];
    assert d4.puzzles == d2.puzzles;
  }

  /** Writing a one-message puzzle with one answer line from an idle chat:
      /new, the message, /setanswer, the line, /end saves exactly that puzzle
      and that line under the chosen name, and leaves the chat idle again. */
  lemma AuthoringRound(d: Draft, args: seq<string>, puzzle: Message, answer: Message, st: Storage)
    requires st.username.Some?
    requires Inv(d) && d.action == Idle && CheckName(JoinWith(args, "_"))
    requires exists t :: Present(puzzle, t)
    requires |answer.text| > 0
    ensures var d2 := DataGetter(New(d, args).draft, Some(puzzle)).draft;
            var e := End(DataGetter(SetAnswer(d2).draft, Some(answer)).draft, st);
            && e.crash.None? && e.saved.Some? && e.draft.action == Idle
            && e.saved.value.answers == [answer.text]
            && |e.saved.value.items| == 1
            && e.saved.value.dir == PathJoin(PathJoin(PathJoin(st.workingPath, d.folder), st.username.value),
                                            PuzzleDirName(Counter(d.counters, d.folder), JoinWith(args, "_")))
  {
    NewThenMessage(d, args, puzzle);
    var d2 := DataGetter(New(d, args).draft, Some(puzzle)).draft;
    AnswerThenEnd(d2, answer, st);
  }

  // ---------------------------------------------------------------------------
  // Guess syntax in the instructions

  /** The guess line the /setanswer instructions teach, as written: the
      trigger and the reply fenced in tildes. */
  function InstructedGuessLineAsWritten(trigger: string, reply: string): string {
    "~" + trigger + "~" + reply
  }

  /** A guess written as the instructions say is read by the game as an
      exact answer: the line itself is accepted and no guess is stored. */
  lemma InstructedGuessBecomesAnswer(trigger: string, reply: string)
    ensures var line := InstructedGuessLineAsWritten(trigger, reply);
            && Classify(line) == AnswerLine(line)
            && GuessesOf([line]) == []
            && CheckAnswer(ParseAnswers([line]), AnswerForm(line)) == Correct
  {
    var line := InstructedGuessLineAsWritten(trigger, reply);
    assert line[0] == '~';
    assert GuessesOf([line]) == GuessesOf([line][1..]) by {
      assert !Classify(line).GuessLine?;
    }
    AnswerLineAccepted([line], 0);
  }

  /** The guess line the kernel and the preview read: trigger and reply
      fenced in question marks. */
  function InstructedGuessLine(trigger: string, reply: string): string {
    "?" + trigger + "?" + reply
  }

  /** A guess written with question marks, neither part holding one, is
      stored as that guess. */
  lemma InstructedGuessIsGuess(trigger: string, reply: string)
    requires '?' !in trigger && '?' !in reply
    ensures Classify(InstructedGuessLine(trigger, reply)) == GuessLine(trigger, reply)
    ensures GuessesOf([InstructedGuessLine(trigger, reply)]) == [GuessForm(trigger, reply)]
  {
    var line := InstructedGuessLine(trigger, reply);
    var body := trigger + "?" + reply;
    assert line == "?" + body;
    assert line[1..] == body;
    SplitAfterHeadChar(trigger, reply);
    assert StartsWith(line, "?");
  }

  /** Splitting "t?r" on '?' with no '?' in t or r gives [t, r]. */
  lemma SplitAfterHeadChar(t: string, r: string)
    requires '?' !in t && '?' !in r
    ensures SplitSep(t + "?" + r, "?") == [t, r]
  {
    assert "?" == ['?'];
    ContainsCharIff(r, '?');
    SplitTwo(t, "?", r);
  }
}
