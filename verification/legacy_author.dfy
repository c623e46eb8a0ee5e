/** The older authoring bot. Its state machine is the one of the newer bot,
    but the chat metadata is read as stored (a key that /start never set
    raises), the buffers live in the bot itself keyed by the sending user,
    names are not validated, and the preview reads guesses as "~trigger~reply". */
module LegacyAuthor {
  import opened Results
  import opened Strings
  import opened ReadWrite
  import opened Author

  /** A chat's stored metadata, None for an absent key. */
  datatype LegacyMeta = LegacyMeta(
    action: Option<Action>,
    questionNum: Option<map<string, nat>>,
    puzzleFolder: Option<string>,
    name: Option<string>)

  predicate IsEmptyMeta(m: LegacyMeta) {
    m.action.None? && m.questionNum.None? && m.puzzleFolder.None? && m.name.None?
  }

  /** The two per-user dictionaries of the bot. A user without an entry has
      empty buffers, as with defaultdict(list). */
  datatype Buffers = Buffers(puzzles: map<int, seq<seq<Item>>>, answers: map<int, seq<seq<string>>>)

  function UserPuzzles(b: Buffers, u: int): seq<seq<Item>> {
    if u in b.puzzles then b.puzzles[u] else []
  }

  function UserAnswers(b: Buffers, u: int): seq<seq<string>> {
    if u in b.answers then b.answers[u] else []
  }

  function WithPuzzles(b: Buffers, u: int, p: seq<seq<Item>>): (r: Buffers)
    ensures UserPuzzles(r, u) == p && UserAnswers(r, u) == UserAnswers(b, u)
    ensures OthersUntouched(b, r, u)
  {
    b.(puzzles := b.puzzles[u := p])
  }

  function WithAnswers(b: Buffers, u: int, a: seq<seq<string>>): (r: Buffers)
    ensures UserAnswers(r, u) == a && UserPuzzles(r, u) == UserPuzzles(b, u)
    ensures OthersUntouched(b, r, u)
  {
    b.(answers := b.answers[u := a])
  }

  /** No user but u sees a change in their buffers. */
  ghost predicate OthersUntouched(b: Buffers, r: Buffers, u: int) {
    forall v :: v != u ==> UserPuzzles(r, v) == UserPuzzles(b, v) && UserAnswers(r, v) == UserAnswers(b, v)
  }

  datatype LegacyOutcome = LegacyOutcome(
    meta: LegacyMeta,
    buffers: Buffers,
    notices: seq<Notice>,
    saved: Option<Saved>,
    crash: Option<Crash>)

  function Say(m: LegacyMeta, b: Buffers, n: Notice): LegacyOutcome {
    LegacyOutcome(m, b, [n], None, None)
  }

  function Raise(m: LegacyMeta, b: Buffers, c: Crash): LegacyOutcome {
    LegacyOutcome(m, b, [], None, Some(c))
  }

  /** The metadata and user u's buffers seen as one draft of the newer bot. */
  function AsDraft(m: LegacyMeta, b: Buffers, u: int): Draft
    requires m.action.Some? && m.questionNum.Some? && m.puzzleFolder.Some? && m.name.Some?
  {
    Draft(UserPuzzles(b, u), UserAnswers(b, u), m.action.value, m.questionNum.value, m.puzzleFolder.value, m.name.value)
  }

  /** The state invariant of the newer bot, for one user writing in a chat
      of their own. */
  predicate LegacyInv(m: LegacyMeta, b: Buffers, u: int) {
    && m.action.Some?
    && (m.action.value != Idle ==> |UserPuzzles(b, u)| > 0 && |UserAnswers(b, u)| > 0)
    && (m.action.value == Answer ==> |Last(UserPuzzles(b, u))| > 0)
  }

  // ---------------------------------------------------------------------------
  // Commands

  /** QAuthor.__start: only metadata with no key at all is initialised, to
      the idle state, no counters, the "random_flood" folder and no name;
      metadata holding any key is left as it is. */
  function Start(m: LegacyMeta): (r: LegacyMeta)
    ensures IsEmptyMeta(m) ==> && r.action == Some(Idle) && r.questionNum == Some(map[])
                               && r.puzzleFolder == Some("random_flood") && r.name == Some("")
    ensures !IsEmptyMeta(m) ==> r == m
    ensures !IsEmptyMeta(r)
  {
    if IsEmptyMeta(m) then LegacyMeta(Some(Idle), Some(map[]), Some("random_flood"), Some("")) else m
  }

  /** After /start in a new chat every key is present, the invariant holds
      for any user, and /new followed by /setanswer never raises. */
  lemma StartedChatIsIdle(b: Buffers, u: int, args: seq<string>)
    ensures var m := Start(LegacyMeta(None, None, None, None));
            && LegacyInv(m, b, u)
            && New(m, b, u, args).crash.None?
            && SetAnswer(New(m, b, u, args).meta, New(m, b, u, args).buffers, u).crash.None?
  {
  }

  /** QAuthor.__new: refused unless idle; the name is taken as given, and
      only u's buffers gain a fresh current entry. */
  function New(m: LegacyMeta, b: Buffers, u: int, args: seq<string>): (r: LegacyOutcome)
    ensures m.action.None? ==> r == Raise(m, b, MissingKey)
    ensures m.action.Some? && m.action.value != Idle ==> r == Say(m, b, FinishFirst)
    ensures m.action == Some(Idle) ==>
              && r.crash.None? && r.meta == m.(action := Some(Question), name := Some(JoinWith(args, "_")))
              && UserPuzzles(r.buffers, u) == StartEntry(UserPuzzles(b, u))
              && UserAnswers(r.buffers, u) == StartEntry(UserAnswers(b, u))
    ensures OthersUntouched(b, r.buffers, u)
    ensures LegacyInv(m, b, u) ==> LegacyInv(r.meta, r.buffers, u)
  {
    if m.action.None? then Raise(m, b, MissingKey)
    else if m.action.value != Idle then Say(m, b, FinishFirst)
    else
      var b1 := WithPuzzles(b, u, StartEntry(UserPuzzles(b, u)));
      var b2 := WithAnswers(b1, u, StartEntry(UserAnswers(b, u)));
      Say(m.(action := Some(Question), name := Some(JoinWith(args, "_"))), b2, GoAhead)
  }

  /** A name the newer bot refuses is accepted here. */
  lemma NewAcceptsAnyName(m: LegacyMeta, b: Buffers, u: int, args: seq<string>)
    requires m.action == Some(Idle) && !CheckName(JoinWith(args, "_"))
    ensures New(m, b, u, args).meta.name == Some(JoinWith(args, "_"))
    ensures Author.New(Draft([], [], Idle, map[], "", ""), args).notices == [NameInvalid(JoinWith(args, "_"))]
  {
  }

  /** QAuthor.__data_getter: as in the newer bot, on u's buffers; an edit has
      no message and raises. */
  function DataGetter(m: LegacyMeta, b: Buffers, u: int, msg: Option<Message>): (r: LegacyOutcome)
    ensures msg.None? ==> r == Raise(m, b, EditedMessage)
    ensures msg.Some? && m.action.None? ==> r == Raise(m, b, MissingKey)
    ensures r.meta == m && r.saved.None? && OthersUntouched(b, r.buffers, u)
    ensures msg.Some? && m.action == Some(Question) && |UserPuzzles(b, u)| > 0 ==>
              match PushPuzzle(msg.value, Last(UserPuzzles(b, u)))
              case None => r == Raise(m, b, UnknownMessageKind)
              case Some(p) => r.crash.None? && UserPuzzles(r.buffers, u) == SetLast(UserPuzzles(b, u), p)
                              && UserAnswers(r.buffers, u) == UserAnswers(b, u)
    ensures msg.Some? && m.action == Some(Answer) && |msg.value.text| > 0 && |UserAnswers(b, u)| > 0 ==>
              && r.crash.None? && UserPuzzles(r.buffers, u) == UserPuzzles(b, u)
              && UserAnswers(r.buffers, u) == SetLast(UserAnswers(b, u), PushAnswer(msg.value, Last(UserAnswers(b, u))))
    ensures msg.Some? && m.action == Some(Answer) && |msg.value.text| == 0 ==> r == Say(m, b, AnswerOnlyText)
    ensures msg.Some? && m.action == Some(Idle) ==> r == LegacyOutcome(m, b, [], None, None)
    ensures LegacyInv(m, b, u) ==> LegacyInv(r.meta, r.buffers, u)
  {
    if msg.None? then Raise(m, b, EditedMessage)
    else if m.action.None? then Raise(m, b, MissingKey)
    else
      var msg := msg.value;
      match m.action.value
      case Idle => LegacyOutcome(m, b, [], None, None)
      case Question =>
        var ps := UserPuzzles(b, u);
        if |ps| == 0 then Raise(m, b, EmptyBuffer)
        else (match PushPuzzle(msg, Last(ps))
          case None => Raise(m, b, UnknownMessageKind)
          case Some(p) => LegacyOutcome(m, WithPuzzles(b, u, SetLast(ps, p)), [], None, None))
      case Answer =>
        var as_ := UserAnswers(b, u);
        if |msg.text| == 0 then Say(m, b, AnswerOnlyText)
        else if |as_| == 0 then Raise(m, b, EmptyBuffer)
        else LegacyOutcome(m, WithAnswers(b, u, SetLast(as_, PushAnswer(msg, Last(as_)))), [], None, None)
  }

  /** In a group the state is the chat's but the buffers are each user's:
      once one member has started a question, a member with no buffer of
      their own who sends a message makes the handler raise. */
  lemma OtherMemberStranded(m: LegacyMeta, b: Buffers, v: int, msg: Message)
    requires m.action == Some(Question) && UserPuzzles(b, v) == []
    ensures DataGetter(m, b, v, Some(msg)) == Raise(m, b, EmptyBuffer)
  {
  }

  /** QAuthor.__end: as in the newer bot; the state goes idle and the author
      is thanked before the save, which raises when the folder, counter or
      name key is missing or the sender has no username. The save reads the
      folder key first, then joins the username, then reads the counter and
      the name, so a missing username wins over a missing counter or name. */
  function End(m: LegacyMeta, b: Buffers, u: int, st: Storage): (r: LegacyOutcome)
    ensures m.action.None? ==> r == Raise(m, b, MissingKey)
    ensures m.action.Some? && m.action.value != Answer ==> r == Say(m, b, SpecifyAnswerFirst)
    ensures OthersUntouched(b, r.buffers, u)
    ensures r.saved.Some? ==>
              && m.action == Some(Answer) && m.questionNum.Some? && m.puzzleFolder.Some? && m.name.Some?
              && |UserPuzzles(b, u)| > 0 && |UserAnswers(b, u)| > 0
              && SaveToFile(Last(UserPuzzles(b, u)), Last(UserAnswers(b, u)), st.username,
                            m.puzzleFolder.value, m.questionNum.value, m.name.value,
                            st.workingPath, st.saveMedia) == Ok(r.saved.value)
              && r.meta == m.(action := Some(Idle), questionNum := Some(r.saved.value.counters))
              && |Last(UserAnswers(b, u))| > 0
    ensures (&& m.action == Some(Answer) && m.questionNum.Some? && m.puzzleFolder.Some? && m.name.Some?
             && |UserPuzzles(b, u)| > 0 && |UserAnswers(b, u)| > 0 && |Last(UserAnswers(b, u))| > 0) ==>
              if st.username.Some? then r.saved.Some?
              else r == LegacyOutcome(m.(action := Some(Idle)), b, [Thanks], None, Some(UsernameMissing))
    ensures (&& m.action == Some(Answer) && m.puzzleFolder.Some? && st.username.None?
             && |UserPuzzles(b, u)| > 0 && |UserAnswers(b, u)| > 0 && |Last(UserAnswers(b, u))| > 0) ==>
              r == LegacyOutcome(m.(action := Some(Idle)), b, [Thanks], None, Some(UsernameMissing))
    ensures m.action == Some(Answer) && |UserAnswers(b, u)| > 0 && |Last(UserAnswers(b, u))| > 0 ==>
              r.meta.action == Some(Idle) && r.notices == [Thanks]
    ensures LegacyInv(m, b, u) ==> LegacyInv(r.meta, r.buffers, u)
  {
    if m.action.None? then Raise(m, b, MissingKey)
    else if m.action.value != Answer then Say(m, b, SpecifyAnswerFirst)
    else
      var as_ := UserAnswers(b, u);
      if |as_| == 0 then Raise(m, b, EmptyBuffer)
      else if |Last(as_)| < 1 then Say(m, b, SpecifyAnswerFirst)
      else
        var m1 := m.(action := Some(Idle));
        var ps := UserPuzzles(b, u);
        if |ps| == 0 || m.puzzleFolder.None? then
          LegacyOutcome(m1, b, [Thanks], None, Some(if |ps| == 0 then EmptyBuffer else MissingKey))
        else if st.username.None? then LegacyOutcome(m1, b, [Thanks], None, Some(UsernameMissing))
        else if m.questionNum.None? || m.name.None? then LegacyOutcome(m1, b, [Thanks], None, Some(MissingKey))
        else
          match SaveToFile(Last(ps), Last(as_), st.username, m.puzzleFolder.value, m.questionNum.value,
                           m.name.value, st.workingPath, st.saveMedia)
          case Err(_) => LegacyOutcome(m1, b, [Thanks], None, Some(UsernameMissing))
          case Ok(s) =>
            LegacyOutcome(m1.(questionNum := Some(s.counters)), WithPuzzles(b, u, SetLast(ps, s.items)),
                          [Thanks], Some(s), None)
  }

  /** QAuthor.__set_answer. */
  function SetAnswer(m: LegacyMeta, b: Buffers, u: int): (r: LegacyOutcome)
    ensures m.action.None? ==> r == Raise(m, b, MissingKey)
    ensures r.buffers == b && r.saved.None?
    ensures m.action.Some? && m.action.value != Question ==> r == Say(m, b, BeginQuestionFirst)
    ensures m.action == Some(Question) && |UserPuzzles(b, u)| > 0 ==>
              if |Last(UserPuzzles(b, u))| == 0 then r == Say(m, b, BeginQuestionFirst)
              else r == Say(m.(action := Some(Answer)), b, EnterAnswers)
    ensures LegacyInv(m, b, u) ==> LegacyInv(r.meta, r.buffers, u) && r.crash.None?
  {
    if m.action.None? then Raise(m, b, MissingKey)
    else if m.action.value != Question then Say(m, b, BeginQuestionFirst)
    else if |UserPuzzles(b, u)| == 0 then Raise(m, b, EmptyBuffer)
    else if |Last(UserPuzzles(b, u))| == 0 then Say(m, b, BeginQuestionFirst)
    else Say(m.(action := Some(Answer)), b, EnterAnswers)
  }

  /** QAuthor.__set_name: any name, while a puzzle is being written. */
  function SetName(m: LegacyMeta, b: Buffers, args: seq<string>): (r: LegacyOutcome)
    ensures m.action.None? ==> r == Raise(m, b, MissingKey)
    ensures r.buffers == b && r.saved.None?
    ensures m.action == Some(Idle) ==> r == Say(m, b, AlreadySaved)
    ensures m.action.Some? && m.action.value != Idle ==> r == Say(m.(name := Some(JoinWith(args, "_"))), b, NameSet)
  {
    if m.action.None? then Raise(m, b, MissingKey)
    else if m.action.value == Idle then Say(m, b, AlreadySaved)
    else Say(m.(name := Some(JoinWith(args, "_"))), b, NameSet)
  }

  /** QAuthor.__delete_last_update: drops the last item of u's active
      current entry, if there is one. */
  function DeleteLastUpdate(m: LegacyMeta, b: Buffers, u: int): (r: LegacyOutcome)
    ensures m.action.None? ==> r == Raise(m, b, MissingKey)
    ensures r.meta == m && r.saved.None? && OthersUntouched(b, r.buffers, u)
    ensures m.action == Some(Question) && |UserPuzzles(b, u)| > 0 && |Last(UserPuzzles(b, u))| > 0 ==>
              && r.notices == [DeletedFromBuffer] && UserAnswers(r.buffers, u) == UserAnswers(b, u)
              && UserPuzzles(r.buffers, u) == SetLast(UserPuzzles(b, u), DropLast(Last(UserPuzzles(b, u))))
    ensures m.action == Some(Answer) && |UserAnswers(b, u)| > 0 && |Last(UserAnswers(b, u))| > 0 ==>
              && r.notices == [DeletedFromBuffer] && UserPuzzles(r.buffers, u) == UserPuzzles(b, u)
              && UserAnswers(r.buffers, u) == SetLast(UserAnswers(b, u), DropLast(Last(UserAnswers(b, u))))
    ensures m.action == Some(Idle) ==> r == Say(m, b, NothingToDelete)
    ensures LegacyInv(m, b, u) ==> LegacyInv(r.meta, r.buffers, u) && r.crash.None?
  {
    if m.action.None? then Raise(m, b, MissingKey)
    else
      var ps := UserPuzzles(b, u);
      var as_ := UserAnswers(b, u);
      if m.action.value == Question && |ps| == 0 then Raise(m, b, EmptyBuffer)
      else if m.action.value == Question && |Last(ps)| > 0 then
        Say(m, WithPuzzles(b, u, SetLast(ps, DropLast(Last(ps)))), DeletedFromBuffer)
      else if m.action.value == Answer && |as_| == 0 then Raise(m, b, EmptyBuffer)
      else if m.action.value == Answer && |Last(as_)| > 0 then
        Say(m, WithAnswers(b, u, SetLast(as_, DropLast(Last(as_)))), DeletedFromBuffer)
      else Say(m, b, NothingToDelete)
  }

  /** QAuthor.__delete_last_question: as in the newer bot, on u's buffers. */
  function DeleteLastQuestion(m: LegacyMeta, b: Buffers, u: int): (r: LegacyOutcome)
    ensures m.action.None? ==> r == Raise(m, b, MissingKey)
    ensures r.saved.None? && OthersUntouched(b, r.buffers, u)
    ensures m.action == Some(Question) && |UserPuzzles(b, u)| > 0 ==>
              && r == Say(m.(action := Some(Idle)), r.buffers, DeletedQuestion)
              && UserPuzzles(r.buffers, u) == DropLast(UserPuzzles(b, u)) && UserAnswers(r.buffers, u) == UserAnswers(b, u)
    ensures m.action == Some(Answer) && |UserAnswers(b, u)| > 0 && |UserPuzzles(b, u)| > 0 ==>
              && r == Say(m.(action := Some(Idle)), r.buffers, DeletedQuestion)
              && UserPuzzles(r.buffers, u) == DropLast(UserPuzzles(b, u))
              && UserAnswers(r.buffers, u) == DropLast(UserAnswers(b, u))
    ensures r.crash.None? && r.notices == [NothingToDelete] ==> r.meta == m && r.buffers == b
    ensures LegacyInv(m, b, u) ==> LegacyInv(r.meta, r.buffers, u) && r.crash.None?
  {
    if m.action.None? then Raise(m, b, MissingKey)
    else
      var ps := UserPuzzles(b, u);
      var as_ := UserAnswers(b, u);
      if m.action.value == Question && |ps| > 0 then
        Say(m.(action := Some(Idle)), WithPuzzles(b, u, DropLast(ps)), DeletedQuestion)
      else if m.action.value == Answer && |as_| > 0 then
        if |ps| == 0 then Raise(m, b, EmptyBuffer)
        else
          var b1 := WithPuzzles(b, u, DropLast(ps));
          Say(m.(action := Some(Idle)), WithAnswers(b1, u, DropLast(as_)), DeletedQuestion)
      else Say(m, b, NothingToDelete)
  }

  /** QAuthor.__hard_reset: the chat goes idle and only u's buffers are
      emptied. */
  function HardReset(m: LegacyMeta, b: Buffers, u: int): (r: LegacyOutcome)
    ensures r.meta == m.(action := Some(Idle))
    ensures UserPuzzles(r.buffers, u) == [] && UserAnswers(r.buffers, u) == []
    ensures OthersUntouched(b, r.buffers, u)
    ensures r.crash.None? && r.notices == [] && LegacyInv(r.meta, r.buffers, u)
  {
    LegacyOutcome(m.(action := Some(Idle)), WithAnswers(WithPuzzles(b, u, []), u, []), [], None, None)
  }

  // ---------------------------------------------------------------------------
  // Preview

  /** The older bot's reading of an answer line for display: a line
      starting with '~' is a guess split at '~', which raises without a
      second '~'; '<'...'>' is a hint; anything else an answer. */
  function LegacyPreviewOf(lines: seq<string>): (r: Result<PreviewEntries, Crash>)
    ensures r.Err? ==> r.error == GuessWithoutReply
    ensures r.Err? <==> exists i :: 0 <= i < |lines| && TildeWithoutReply(lines[i])
    decreases |lines|
  {
    if |lines| == 0 then Ok(PreviewEntries([], [], []))
    else
      var line := lines[0];
      TildeWithoutReplyIff(line);
      TildeWithoutReplySplit(lines);
      if StartsWith(line, "~") && |SplitSep(line[1..], "~")| < 2 then Err(GuessWithoutReply)
      else
        match LegacyPreviewOf(lines[1..])
        case Err(e) => Err(e)
        case Ok(p) =>
          if StartsWith(line, "~") then
            var parts := SplitSep(line[1..], "~");
            Ok(p.(guesses := [(parts[0], parts[1])] + p.guesses))
          else if StartsWith(line, "<") && EndsWith(line, ">") then Ok(p.(hints := [line[1..|line| - 1]] + p.hints))
          else Ok(p.(answers := [line] + p.answers))
  }

  /** Some line cannot be read exactly when the first one cannot or some
      later one cannot. */
  lemma TildeWithoutReplySplit(lines: seq<string>)
    requires |lines| > 0
    ensures (exists i :: 0 <= i < |lines| && TildeWithoutReply(lines[i])) <==>
            TildeWithoutReply(lines[0]) || exists i :: 0 <= i < |lines[1..]| && TildeWithoutReply(lines[1..][i])
  {
    assert forall i :: 1 <= i < |lines| ==> lines[i] == lines[1..][i - 1];
  }

  /** A line the older preview cannot read: '~' first and no other '~'. */
  predicate TildeWithoutReply(line: string) {
    |line| > 0 && line[0] == '~' && '~' !in line[1..]
  }

  lemma TildeWithoutReplyIff(line: string)
    ensures StartsWith(line, "~") && |SplitSep(line[1..], "~")| < 2 <==> TildeWithoutReply(line)
  {
    if StartsWith(line, "~") {
      SplitHasPiecesIffContains(line[1..], "~");
      ContainsCharIff(line[1..], '~');
      assert "~" == ['~'];
    }
  }

  /** QAuthor.__preview: the name, u's current puzzle, then in the idle and
      answer states the answer summary; nothing changes. */
  function Preview(m: LegacyMeta, b: Buffers, u: int): (r: LegacyOutcome)
    ensures r.meta == m && r.buffers == b && r.saved.None?
    ensures m.name.None? ==> r == Raise(m, b, MissingKey)
    ensures r.crash.None? ==>
              && m.name.Some? && m.action.Some? && |UserPuzzles(b, u)| > 0 && |r.notices| > 0
              && (m.name.value != "" <==> r.notices[0] == NameLine(UnderscoresToSpaces(m.name.value)))
              && (m.action.value != Question ==>
                    && |UserAnswers(b, u)| > 0 && LegacyPreviewOf(Last(UserAnswers(b, u))).Ok?
                    && Last(r.notices) == AnswerSummary(SummaryText(LegacyPreviewOf(Last(UserAnswers(b, u))).value)))
    ensures (&& m.name.Some? && m.action.Some? && m.action.value != Question && |UserPuzzles(b, u)| > 0
             && |UserAnswers(b, u)| > 0 && LegacyPreviewOf(Last(UserAnswers(b, u))).Err?) ==> r.crash == Some(GuessWithoutReply)
  {
    if m.name.None? then Raise(m, b, MissingKey)
    else
      var nameLine := if m.name.value != "" then [NameLine(UnderscoresToSpaces(m.name.value))] else [];
      var ps := UserPuzzles(b, u);
      if |ps| == 0 then LegacyOutcome(m, b, nameLine, None, Some(EmptyBuffer))
      else
        var shown :=
          if |Last(ps)| == 0 then Ok([NothingInBuffer])
          else (match Send(Last(ps), "", true)
            case Err(e) => Err(e)
            case Ok(outs) => Ok([PuzzlePreview(outs)]));
        match shown
        case Err(e) => LegacyOutcome(m, b, nameLine, None, Some(PreviewSendFailed(e)))
        case Ok(sent) =>
          var so_far := nameLine + sent;
          if m.action.None? then LegacyOutcome(m, b, so_far, None, Some(MissingKey))
          else if m.action.value == Question then LegacyOutcome(m, b, so_far, None, None)
          else
            var as_ := UserAnswers(b, u);
            if |as_| == 0 then LegacyOutcome(m, b, so_far, None, Some(EmptyBuffer))
            else match LegacyPreviewOf(Last(as_))
              case Err(c) => LegacyOutcome(m, b, so_far, None, Some(c))
              case Ok(p) => LegacyOutcome(m, b, so_far + [AnswerSummary(SummaryText(p))], None, None)
  }

  // ---------------------------------------------------------------------------
  // Agreement with the newer bot

  /** For one user whose metadata has every key, /new with a valid name,
      /setanswer, both delete commands and /hardreset do to that user's draft
      what the newer bot does to the chat's draft. */
  lemma AgreesWithNewerBot(m: LegacyMeta, b: Buffers, u: int, args: seq<string>)
    requires m.action.Some? && m.questionNum.Some? && m.puzzleFolder.Some? && m.name.Some?
    ensures CheckName(JoinWith(args, "_")) ==>
              var r := New(m, b, u, args);
              AsDraft(r.meta, r.buffers, u) == Author.New(AsDraft(m, b, u), args).draft
    ensures var r := SetAnswer(m, b, u);
            AsDraft(r.meta, r.buffers, u) == Author.SetAnswer(AsDraft(m, b, u)).draft
    ensures var r := DeleteLastUpdate(m, b, u);
            AsDraft(r.meta, r.buffers, u) == Author.DeleteLastUpdate(AsDraft(m, b, u)).draft
    ensures var r := DeleteLastQuestion(m, b, u);
            AsDraft(r.meta, r.buffers, u) == Author.DeleteLastQuestion(AsDraft(m, b, u)).draft
    ensures var r := HardReset(m, b, u);
            AsDraft(r.meta, r.buffers, u) == Author.HardReset(AsDraft(m, b, u)).draft
  {
  }
}
