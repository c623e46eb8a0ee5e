/** Per-chat session bookkeeping of the quiz bot: filling in chat metadata,
    the no-spoiler message stack, answering, the daily puzzle fan-out, and the
    level-jump buttons. Telegram is abstracted: messages are handles, sends and
    deletes are effects, and what the transport answers is a parameter. */
module Game {
  import opened Results
  import opened Strings
  import opened ReadWrite
  import opened QuizKernel

  /** A sent or received message: chat id and message id. */
  datatype Handle = Handle(chatId: int, messageId: int)

  /** What the handlers ask of the transport. */
  datatype Effect =
    | Delete(handle: Handle)
    | SendText(chat: int, text: string)
    | SendPuzzle(chat: int, outputs: seq<Output>)

  /** The bot's config.yaml, already read. */
  datatype GameConfig = GameConfig(gamesDbPath: string, defaultGame: string, noSpoilersDefault: bool)

  const CurrentVersion: real := 1.0

  /** A chat's stored metadata. Each field is one dictionary key, None when
      the key is absent; `otherKeys` records keys this model does not read. */
  datatype Meta = Meta(
    gameType: Option<string>,
    quiz: Option<map<string, Kernel>>,
    noSpoiler: Option<bool>,
    messageStack: Option<seq<Handle>>,
    gameOfDay: Option<bool>,
    answerFromText: Option<bool>,
    version: Option<real>,
    otherKeys: bool)

  /** An empty dictionary, which Python treats as false. */
  predicate IsEmpty(m: Meta) {
    m.gameType.None? && m.quiz.None? && m.noSpoiler.None? && m.messageStack.None?
    && m.gameOfDay.None? && m.answerFromText.None? && m.version.None? && !m.otherKeys
  }

  /** Why a handler stops with an exception. */
  datatype Failure =
    | BotAsLevelIndex                 // QuizKernel(path, bot, chat_id): a bot object used as a list index
    | NoKernelForGame(game: string)   // metadata['quiz'][game_type] raises KeyError
    | KernelFailed(kernelError: KernelError)
    | SendFailed(sendError: SendError)
    | TransportFailed(chat: int)      // any send error other than Unauthorized / ChatMigrated

  /** Where a game's master copy lives. */
  function MasterDir(cfg: GameConfig, game: string): string {
    PathJoin(PathJoin(cfg.gamesDbPath, game), "master")
  }

  // ---------------------------------------------------------------------------
  // get_chat_meta

  /** The metadata after get_chat_meta, the intro message sent by a freshly
      created kernel, and the exception that stopped it, if any. */
  datatype MetaOutcome = MetaOutcome(meta: Meta, intro: Option<string>, failure: Option<Failure>)

  /** The plain keys: each missing one gets its default, present ones stay. */
  function FillFlags(cfg: GameConfig, m: Meta): (r: Meta)
    ensures r.gameType == m.gameType && r.quiz == m.quiz && r.version == m.version && r.otherKeys == m.otherKeys
    ensures r.noSpoiler == Some(m.noSpoiler.GetOr(cfg.noSpoilersDefault))
    ensures r.messageStack == Some(m.messageStack.GetOr([]))
    ensures r.gameOfDay == Some(m.gameOfDay.GetOr(true))
    ensures r.answerFromText == Some(m.answerFromText.GetOr(true))
  {
    m.(noSpoiler := Some(m.noSpoiler.GetOr(cfg.noSpoilersDefault)),
       messageStack := Some(m.messageStack.GetOr([])),
       gameOfDay := Some(m.gameOfDay.GetOr(true)),
       answerFromText := Some(m.answerFromText.GetOr(true)))
  }

  /** The version check: a missing or different version is set to the current
      one and the current game's kernel is rebuilt from its working directory
      and pointer. The version is written before the rebuild can fail. */
  function CheckVersion(disk: map<string, GameDir>, m: Meta): (r: MetaOutcome)
    requires m.gameType.Some? && m.quiz.Some?
    ensures r.intro.None?
    ensures r.meta.version == Some(CurrentVersion)
    ensures r.meta == m.(version := r.meta.version, quiz := r.meta.quiz)
    ensures m.version == Some(CurrentVersion) ==> r == MetaOutcome(m, None, None)
    ensures m.version != Some(CurrentVersion) && m.gameType.value !in m.quiz.value ==>
              r.failure == Some(NoKernelForGame(m.gameType.value)) && r.meta.quiz == m.quiz
    ensures m.version != Some(CurrentVersion) && m.gameType.value in m.quiz.value ==>
              var prior := m.quiz.value[m.gameType.value];
              var rebuilt := Create(disk, Serialize(prior).0, Serialize(prior).1);
              && (rebuilt.Err? ==> r.meta.quiz == m.quiz && r.failure == Some(KernelFailed(rebuilt.error)))
              && (rebuilt.Ok? ==> r.failure.None? && r.meta.quiz == Some(m.quiz.value[m.gameType.value := rebuilt.value])
                                  && rebuilt.value.pointer == prior.pointer && rebuilt.value.workingDir == prior.workingDir)
  {
    if m.version == Some(CurrentVersion) then MetaOutcome(m, None, None)
    else
      var m1 := m.(version := Some(CurrentVersion));
      var game := m.gameType.value;
      if game !in m.quiz.value then MetaOutcome(m1, None, Some(NoKernelForGame(game)))
      else
        var prior := m.quiz.value[game];
        match Create(disk, prior.workingDir, prior.pointer)
        case Err(e) => MetaOutcome(m1, None, Some(KernelFailed(e)))
        case Ok(k) => MetaOutcome(m1.(quiz := Some(m.quiz.value[game := k])), None, None)
  }

  /** Game.get_chat_meta as written: a chat without a 'quiz' key gets an empty
      game map and then a kernel built as QuizKernel(path, bot, chat_id), which
      uses the bot as the level index and raises before anything is stored.
      The constructor reads the game's config.yaml and lists its levels before
      it indexes them, so a game without a config raises FileNotFoundError
      first; the chat keeps no kernel either way, and the model reports both
      as BotAsLevelIndex. */
  function GetChatMetaAsWritten(cfg: GameConfig, disk: map<string, GameDir>, m: Meta): (r: MetaOutcome)
    ensures IsEmpty(m) ==> r == MetaOutcome(m, None, None)
    ensures !IsEmpty(m) && m.quiz.None? ==>
              r.failure == Some(BotAsLevelIndex) && r.meta.quiz == Some(map[])
  {
    if IsEmpty(m) then MetaOutcome(m, None, None)
    else
      var m1 := m.(gameType := Some(m.gameType.GetOr(cfg.defaultGame)));
      if m1.quiz.None? then MetaOutcome(m1.(quiz := Some(map[])), None, Some(BotAsLevelIndex))
      else CheckVersion(disk, FillFlags(cfg, m1))
  }

  /** A chat whose metadata went through the as-written path without a 'quiz'
      key never gets a kernel for its game: every later call keeps the game map
      empty, and the rebuild fails on the missing key. */
  lemma AsWrittenChatNeverGetsKernel(cfg: GameConfig, disk: map<string, GameDir>, m: Meta)
    requires !IsEmpty(m) && m.quiz.None?
    ensures var first := GetChatMetaAsWritten(cfg, disk, m);
            var second := GetChatMetaAsWritten(cfg, disk, first.meta);
            && first.failure == Some(BotAsLevelIndex)
            && second.meta.quiz == Some(map[])
            && second.meta.gameType.Some? && second.meta.gameType.value !in second.meta.quiz.value
            && (m.version != Some(CurrentVersion) ==> second.failure == Some(NoKernelForGame(second.meta.gameType.value)))
  {
  }

  /** Game.get_chat_meta with the kernel of a chat without a 'quiz' key built
      at level 0 and announced with the game's intro message, as the game
      settings button does. Empty metadata is returned unchanged; otherwise
      each missing key gets its default and no present key is overwritten,
      save the version and the rebuilt kernel. */
  function GetChatMeta(cfg: GameConfig, disk: map<string, GameDir>, m: Meta): (r: MetaOutcome)
    ensures IsEmpty(m) ==> r == MetaOutcome(m, None, None)
    ensures !IsEmpty(m) ==> r.meta.gameType == Some(m.gameType.GetOr(cfg.defaultGame))
    ensures !IsEmpty(m) && r.failure.None? ==>
              && r.meta.noSpoiler == Some(m.noSpoiler.GetOr(cfg.noSpoilersDefault))
              && r.meta.messageStack == Some(m.messageStack.GetOr([]))
              && r.meta.gameOfDay == Some(m.gameOfDay.GetOr(true))
              && r.meta.answerFromText == Some(m.answerFromText.GetOr(true))
              && r.meta.version == Some(CurrentVersion)
              && r.meta.quiz.Some? && r.meta.otherKeys == m.otherKeys
    ensures !IsEmpty(m) && r.failure.None? && (m.quiz.None? || m.version != Some(CurrentVersion)) ==>
              r.meta.quiz.Some? && r.meta.gameType.value in r.meta.quiz.value
    ensures !IsEmpty(m) && m.quiz.Some? ==>
              && r.intro.None?
              && (forall g :: g in m.quiz.value && g != r.meta.gameType.value ==>
                    r.meta.quiz.Some? && g in r.meta.quiz.value && r.meta.quiz.value[g] == m.quiz.value[g])
    ensures !IsEmpty(m) && m.quiz.Some? && m.version == Some(CurrentVersion) ==> r.meta.quiz == m.quiz
    ensures !IsEmpty(m) && m.quiz.None? ==>
              var created := Create(disk, MasterDir(cfg, r.meta.gameType.value), 0);
              && (created.Ok? ==> r.intro == Some(created.value.Config().introMessage)
                                  && r.meta.quiz.Some? && r.meta.gameType.value in r.meta.quiz.value
                                  && r.meta.quiz.value[r.meta.gameType.value].pointer == 0)
              && (created.Err? ==> r.failure == Some(KernelFailed(created.error)) && r.meta.quiz == Some(map[]))
  {
    if IsEmpty(m) then MetaOutcome(m, None, None)
    else
      var game := m.gameType.GetOr(cfg.defaultGame);
      var m1 := m.(gameType := Some(game));
      if m1.quiz.Some? then
        var r := CheckVersion(disk, FillFlags(cfg, m1));
        assert r.meta.gameType == Some(game);
        r
      else
        match Create(disk, MasterDir(cfg, game), 0)
        case Err(e) => MetaOutcome(m1.(quiz := Some(map[])), None, Some(KernelFailed(e)))
        case Ok(k) =>
          var r := CheckVersion(disk, FillFlags(cfg, m1.(quiz := Some(map[game := k]))));
          MetaOutcome(r.meta, Some(k.Config().introMessage), r.failure)
  }

  /** A version rebuild keeps the level a chat was on. */
  lemma VersionRebuildKeepsLevel(cfg: GameConfig, disk: map<string, GameDir>, m: Meta)
    requires !IsEmpty(m) && m.quiz.Some? && m.version != Some(CurrentVersion)
    requires m.gameType.GetOr(cfg.defaultGame) in m.quiz.value
    ensures var r := GetChatMeta(cfg, disk, m);
            var game := m.gameType.GetOr(cfg.defaultGame);
            r.failure.None? ==> r.meta.quiz.value[game].pointer == m.quiz.value[game].pointer
                                && r.meta.quiz.value[game].workingDir == m.quiz.value[game].workingDir
  {
  }

  // ---------------------------------------------------------------------------
  // The filled-in chat

  /** A chat's metadata once every key is present. */
  datatype Chat = Chat(
    gameType: string,
    quiz: map<string, Kernel>,
    noSpoiler: bool,
    stack: seq<Handle>,
    gameOfDay: bool,
    answerFromText: bool)

  function Filled(m: Meta): (r: Option<Chat>)
    ensures r.Some? <==> m.gameType.Some? && m.quiz.Some? && m.noSpoiler.Some? && m.messageStack.Some?
                         && m.gameOfDay.Some? && m.answerFromText.Some?
  {
    if m.gameType.Some? && m.quiz.Some? && m.noSpoiler.Some? && m.messageStack.Some?
       && m.gameOfDay.Some? && m.answerFromText.Some?
    then Some(Chat(m.gameType.value, m.quiz.value, m.noSpoiler.value, m.messageStack.value,
                   m.gameOfDay.value, m.answerFromText.value))
    else None
  }

  /** After a successful get_chat_meta on non-empty metadata every handler
      finds all keys; a chat that had no kernels, or an older version, also
      finds a kernel for its current game. */
  lemma GetChatMetaFills(cfg: GameConfig, disk: map<string, GameDir>, m: Meta)
    requires !IsEmpty(m) && GetChatMeta(cfg, disk, m).failure.None?
    ensures var c := Filled(GetChatMeta(cfg, disk, m).meta);
            && c.Some?
            && (m.quiz.None? || m.version != Some(CurrentVersion) ==> c.value.gameType in c.value.quiz)
  {
  }

  // ---------------------------------------------------------------------------
  // save_reply

  /** Game.save_reply for a chat: the messages are pushed on the stack, in
      order, exactly when no-spoiler mode is on. */
  function SaveReply(stack: seq<Handle>, noSpoiler: bool, messages: seq<Handle>): (r: seq<Handle>)
    ensures noSpoiler ==> r == stack + messages
    ensures !noSpoiler ==> r == stack
  {
    if noSpoiler then stack + messages else stack
  }

  /** Each message twice, in order. */
  function Doubled(messages: seq<Handle>): (r: seq<Handle>)
    decreases |messages|
  {
    if |messages| == 0 then [] else [messages[0], messages[0]] + Doubled(messages[1..])
  }

  lemma {:induction false} DoubledShape(messages: seq<Handle>)
    ensures |Doubled(messages)| == 2 * |messages|
    ensures forall i :: 0 <= i < |messages| ==>
              Doubled(messages)[2 * i] == messages[i] && Doubled(messages)[2 * i + 1] == messages[i]
    decreases |messages|
  {
    if |messages| > 0 {
      DoubledShape(messages[1..]);
      var d := Doubled(messages);
      assert d == [messages[0], messages[0]] + Doubled(messages[1..]);
      forall i | 0 < i < |messages|
        ensures d[2 * i] == messages[i] && d[2 * i + 1] == messages[i]
      {
        assert d[2 * i] == Doubled(messages[1..])[2 * (i - 1)];
        assert d[2 * i + 1] == Doubled(messages[1..])[2 * (i - 1) + 1];
      }
    }
  }

  lemma {:induction false} DoubledAppend(a: seq<Handle>, b: seq<Handle>)
    ensures Doubled(a + b) == Doubled(a) + Doubled(b)
    decreases |a|
  {
    if |a| > 0 {
      DoubledAppend(a[1..], b);
      assert (a + b)[1..] == a[1..] + b;
    } else {
      assert a + b == b;
    }
  }

  /** Game.save_reply with goth=True: the messages go to the daily buffer
      only, where the buffer alias makes each of them appear twice. */
  function SaveDailyReply(prev: seq<Handle>, messages: seq<Handle>): (r: seq<Handle>)
    ensures |r| == |prev| + 2 * |messages| && r[..|prev|] == prev
    ensures forall i :: 0 <= i < |messages| ==> r[|prev| + 2 * i] == messages[i] && r[|prev| + 2 * i + 1] == messages[i]
  {
    DoubledShape(messages);
    var r := prev + Doubled(messages);
    assert r[..|prev|] == prev;
    r
  }

  // ---------------------------------------------------------------------------
  // Answering

  /** An incoming message: its handle, its text and, for a command, its
      arguments. */
  datatype Incoming = Incoming(handle: Handle, text: string, args: seq<string>)

  const AnswerPrompt: string :=
    "Укажи ответ аргументом после команды /answer, например: /answer 1984.\nЛайфхак: чтобы каждый раз не печатать слово answer, можно воспользоваться комбинацией /+tab ответ"

  /** The answer a message carries: a command's arguments joined and
      lower-cased; a plain text as is, or nothing when answers from plain
      text are switched off. */
  function SubmittedAnswer(c: Chat, msg: Incoming): (r: Option<string>)
    ensures StartsWith(msg.text, "/") ==> r == Some(Lower(JoinWith(msg.args, " ")))
    ensures !StartsWith(msg.text, "/") && c.answerFromText ==> r == Some(msg.text)
    ensures r.None? <==> !StartsWith(msg.text, "/") && !c.answerFromText
  {
    if StartsWith(msg.text, "/") then Some(Lower(JoinWith(msg.args, " ")))
    else if c.answerFromText then Some(msg.text)
    else None
  }

  /** The handles the transport gives to `count` messages sent to a chat,
      numbered from firstId. */
  function NewHandles(chat: int, firstId: int, count: nat): (hs: seq<Handle>)
    ensures |hs| == count && forall j :: 0 <= j < count ==> hs[j] == Handle(chat, firstId + j)
  {
    seq(count, j requires 0 <= j < count => Handle(chat, firstId + j))
  }

  function DeleteAll(hs: seq<Handle>): (r: seq<Effect>)
    ensures |r| == |hs| && forall i :: 0 <= i < |hs| ==> r[i] == Delete(hs[i])
  {
    seq(|hs|, i requires 0 <= i < |hs| => Delete(hs[i]))
  }

  function Record(c: Chat, hs: seq<Handle>): Chat {
    c.(stack := SaveReply(c.stack, c.noSpoiler, hs))
  }

  datatype StepResult = StepResult(chat: Chat, effects: seq<Effect>, failure: Option<Failure>)

  /** The draw is a valid random level for the chat's current game, when that
      game picks levels at random. */
  predicate DrawFits(c: Chat, draw: int) {
    c.gameType in c.quiz && c.quiz[c.gameType].Config().randomLevels ==>
      0 <= draw < |c.quiz[c.gameType].Levels()|
  }

  /** The kernel of the chat's game after the puzzle moves on and the next
      level is read. */
  function Advanced(c: Chat, draw: int): (r: Loaded)
    requires c.gameType in c.quiz && DrawFits(c, draw)
    ensures r.kernel.pointer == Next(c.quiz[c.gameType], draw).pointer
  {
    Refresh(Next(c.quiz[c.gameType], draw))
  }

  /** The next puzzle of a kernel, as sent to a chat. */
  function PuzzleOutputs(k: Kernel): Result<seq<Output>, SendError> {
    Send(k.question, k.puzzleDir, true)
  }

  /** The CORRECT branch, given the game's kernel after it moved on and read
      the next level: every stacked message gets one delete attempt in
      no-spoiler mode, the stack is cleared, and the next puzzle is sent and
      recorded. */
  function SolvedStep(c1: Chat, loaded: Loaded, chatId: int, firstId: int): (r: StepResult)
    ensures r.chat == c1.(stack := r.chat.stack, quiz := c1.quiz[c1.gameType := loaded.kernel])
    ensures c1.noSpoiler ==> |r.effects| >= |c1.stack| && r.effects[..|c1.stack|] == DeleteAll(c1.stack)
    ensures !c1.noSpoiler ==> forall i :: 0 <= i < |r.effects| ==> !r.effects[i].Delete?
    ensures r.failure.None? <==> loaded.failure.None? && PuzzleOutputs(loaded.kernel).Ok?
    ensures r.failure.None? ==>
              var outs := PuzzleOutputs(loaded.kernel).value;
              && |r.effects| > 0 && r.effects[|r.effects| - 1] == SendPuzzle(chatId, outs)
              && r.chat.stack == SaveReply([], c1.noSpoiler, NewHandles(chatId, firstId, |outs|))
    ensures r.failure.Some? ==> r.chat.stack == []
  {
    var deletes := if c1.noSpoiler then DeleteAll(c1.stack) else [];
    var c2 := c1.(stack := [], quiz := c1.quiz[c1.gameType := loaded.kernel]);
    if loaded.failure.Some? then StepResult(c2, deletes, Some(KernelFailed(loaded.failure.value)))
    else match PuzzleOutputs(loaded.kernel)
      case Err(e) => StepResult(c2, deletes, Some(SendFailed(e)))
      case Ok(outs) =>
        var effects := deletes + [SendPuzzle(chatId, outs)];
        assert effects[..|deletes|] == deletes;
        StepResult(Record(c2, NewHandles(chatId, firstId, |outs|)), effects, None)
  }

  /** Game.__answer for one incoming message. The incoming message is stacked
      first; the transport numbers this step's sent messages from firstId.
      What happens in each branch is stated by the lemmas that follow. */
  function AnswerStep(c: Chat, msg: Incoming, chatId: int, firstId: int, draw: int): (r: StepResult)
    requires DrawFits(c, draw)
    ensures r.chat == c.(stack := r.chat.stack, quiz := r.chat.quiz)
    ensures r.chat.quiz.Keys == c.quiz.Keys
    ensures forall g :: g in c.quiz && g != c.gameType ==> r.chat.quiz[g] == c.quiz[g]
  {
    var c1 := Record(c, [msg.handle]);
    match SubmittedAnswer(c, msg)
    case None => StepResult(c1, [], None)
    case Some(answer) =>
      if answer == "" then StepResult(Record(c1, NewHandles(chatId, firstId, 1)), [SendText(chatId, AnswerPrompt)], None)
      else if c.gameType !in c.quiz then StepResult(c1, [], Some(NoKernelForGame(c.gameType)))
      else match CheckAnswer(c.quiz[c.gameType].answers, answer)
        case Reply(text) => StepResult(Record(c1, NewHandles(chatId, firstId, 1)), [SendText(chatId, text)], None)
        case Correct =>
          assert c1.quiz == c.quiz && c1.gameType == c.gameType;
          SolvedStep(c1, Advanced(c1, draw), chatId, firstId)
  }

  /** Plain text in a chat that takes answers only from commands is recorded
      and otherwise ignored. */
  lemma AnswerIgnored(c: Chat, msg: Incoming, chatId: int, firstId: int, draw: int)
    requires DrawFits(c, draw) && !StartsWith(msg.text, "/") && !c.answerFromText
    ensures AnswerStep(c, msg, chatId, firstId, draw) == StepResult(Record(c, [msg.handle]), [], None)
  {
  }

  /** An empty answer gets the prompt; the kernel is not consulted. */
  lemma AnswerEmptyPrompts(c: Chat, msg: Incoming, chatId: int, firstId: int, draw: int)
    requires DrawFits(c, draw) && SubmittedAnswer(c, msg) == Some("")
    ensures var r := AnswerStep(c, msg, chatId, firstId, draw);
            && r.effects == [SendText(chatId, AnswerPrompt)] && r.failure.None? && r.chat.quiz == c.quiz
            && r.chat.stack == SaveReply(c.stack, c.noSpoiler, [msg.handle, Handle(chatId, firstId)])
  {
    assert [msg.handle] + [Handle(chatId, firstId)] == [msg.handle, Handle(chatId, firstId)];
  }

  /** A non-empty answer in a chat without a kernel for its game fails
      before anything is sent. */
  lemma AnswerWithoutKernelFails(c: Chat, msg: Incoming, chatId: int, firstId: int, draw: int)
    requires DrawFits(c, draw) && SubmittedAnswer(c, msg).Some? && SubmittedAnswer(c, msg) != Some("")
    requires c.gameType !in c.quiz
    ensures var r := AnswerStep(c, msg, chatId, firstId, draw);
            r.failure == Some(NoKernelForGame(c.gameType)) && r.effects == []
  {
  }

  /** A wrong answer sends the kernel's reply, records it, and leaves the
      level where it was. */
  lemma AnswerWrongReplies(c: Chat, msg: Incoming, chatId: int, firstId: int, draw: int)
    requires DrawFits(c, draw) && SubmittedAnswer(c, msg).Some? && SubmittedAnswer(c, msg) != Some("")
    requires c.gameType in c.quiz
    requires CheckAnswer(c.quiz[c.gameType].answers, SubmittedAnswer(c, msg).value).Reply?
    ensures var r := AnswerStep(c, msg, chatId, firstId, draw);
            var reply := CheckAnswer(c.quiz[c.gameType].answers, SubmittedAnswer(c, msg).value).text;
            && r.chat.quiz == c.quiz && r.failure.None?
            && r.effects == [SendText(chatId, reply)]
            && r.chat.stack == SaveReply(c.stack, c.noSpoiler, [msg.handle, Handle(chatId, firstId)])
  {
    assert [msg.handle] + [Handle(chatId, firstId)] == [msg.handle, Handle(chatId, firstId)];
  }

  /** A correct answer moves the level on once; in no-spoiler mode it first
      deletes every stacked message and the answer itself, otherwise it
      deletes nothing; the stack then holds only the new puzzle's messages. */
  lemma AnswerCorrectAdvances(c: Chat, msg: Incoming, chatId: int, firstId: int, draw: int)
    requires DrawFits(c, draw) && SubmittedAnswer(c, msg).Some? && SubmittedAnswer(c, msg) != Some("")
    requires c.gameType in c.quiz
    requires CheckAnswer(c.quiz[c.gameType].answers, SubmittedAnswer(c, msg).value) == Correct
    ensures var r := AnswerStep(c, msg, chatId, firstId, draw);
            && r.chat.quiz[c.gameType].pointer == Next(c.quiz[c.gameType], draw).pointer
            && (c.noSpoiler ==> |r.effects| > |c.stack| && r.effects[..|c.stack| + 1] == DeleteAll(c.stack + [msg.handle]))
            && (!c.noSpoiler ==> forall i :: 0 <= i < |r.effects| ==> !r.effects[i].Delete?)
            && (r.failure.None? ==> forall i :: 0 <= i < |r.chat.stack| ==> r.chat.stack[i].messageId >= firstId)
  {
    var c1 := Record(c, [msg.handle]);
    assert AnswerStep(c, msg, chatId, firstId, draw) == SolvedStep(c1, Advanced(c1, draw), chatId, firstId);
  }

  /** The messages of the next puzzle are never among those deleted: when the
      transport numbers new messages above every stacked one, no handle left
      on the stack after a correct answer is deleted by it. */
  lemma SolvedStackIsFresh(c: Chat, msg: Incoming, chatId: int, firstId: int, draw: int)
    requires DrawFits(c, draw) && c.gameType in c.quiz
    requires forall i :: 0 <= i < |c.stack| ==> c.stack[i].messageId < firstId
    requires msg.handle.messageId < firstId
    requires SubmittedAnswer(c, msg).Some? && SubmittedAnswer(c, msg) != Some("")
    requires CheckAnswer(c.quiz[c.gameType].answers, SubmittedAnswer(c, msg).value) == Correct
    ensures var r := AnswerStep(c, msg, chatId, firstId, draw);
            forall h, i :: h in r.chat.stack && 0 <= i < |r.effects| ==> r.effects[i] != Delete(h)
  {
    var c1 := Record(c, [msg.handle]);
    assert forall i :: 0 <= i < |c1.stack| ==> c1.stack[i].messageId < firstId by {
      forall i | 0 <= i < |c1.stack|
        ensures c1.stack[i].messageId < firstId
      {
        if i < |c.stack| {
          assert c1.stack[i] == c.stack[i];
        }
      }
    }
    assert AnswerStep(c, msg, chatId, firstId, draw) == SolvedStep(c1, Advanced(c1, draw), chatId, firstId);
    SolvedStepFresh(c1, Advanced(c1, draw), chatId, firstId);
  }

  lemma SolvedStepFresh(c1: Chat, loaded: Loaded, chatId: int, firstId: int)
    requires forall i :: 0 <= i < |c1.stack| ==> c1.stack[i].messageId < firstId
    ensures var r := SolvedStep(c1, loaded, chatId, firstId);
            forall h, i :: h in r.chat.stack && 0 <= i < |r.effects| ==> r.effects[i] != Delete(h)
  {
    var r := SolvedStep(c1, loaded, chatId, firstId);
    forall h, i | h in r.chat.stack && 0 <= i < |r.effects|
      ensures r.effects[i] != Delete(h)
    {
      var outs := PuzzleOutputs(loaded.kernel).value;
      var sent := NewHandles(chatId, firstId, |outs|);
      assert h in sent;
      var j :| 0 <= j < |sent| && sent[j] == h;
      if r.effects[i].Delete? {
        assert c1.noSpoiler && i < |c1.stack|;
        assert r.effects[i] == Delete(c1.stack[i]);
      }
    }
  }

  // ---------------------------------------------------------------------------
  // The daily puzzle

  /** What the transport answers to a send to one chat. */
  datatype SendOutcome =
    | Delivered(handles: seq<Handle>)
    | Unauthorized
    | Migrated(newId: int)
    | Failed

  /** The fan-out over one of the two registries (users or chats): the
      registry, the daily message buffer, the effects so far, and the
      exception that stopped it, if any. */
  datatype FanState = FanState(
    data: map<int, Meta>,
    prev: seq<Handle>,
    effects: seq<Effect>,
    aborted: Option<Failure>)

  /** The daily puzzle's own state: its kernel and the messages of the last
      round. */
  datatype Daily = Daily(kernel: Kernel, prev: seq<Handle>)

  /** The state grew only by sends: buffer and effects are extensions, and
      every added effect is a puzzle sent. */
  predicate Extends(st: FanState, r: FanState) {
    && |st.prev| <= |r.prev| && r.prev[..|st.prev|] == st.prev
    && |st.effects| <= |r.effects| && r.effects[..|st.effects|] == st.effects
    && forall i :: |st.effects| <= i < |r.effects| ==> r.effects[i].SendPuzzle?
  }

  /** The send to the new id of a migrated chat; anything but a delivery
      stops the round. */
  function SendMigrated(n: int, st: FanState, data: map<int, Meta>, outs: seq<Output>,
                        outcome: int -> SendOutcome): (r: FanState)
    ensures r.data == data && Extends(st, r)
    ensures outcome(n).Delivered? ==>
              r == FanState(data, SaveDailyReply(st.prev, outcome(n).handles), st.effects + [SendPuzzle(n, outs)], None)
    ensures !outcome(n).Delivered? ==> r == st.(data := data, aborted := Some(TransportFailed(n)))
  {
    match outcome(n)
    case Delivered(hs) =>
      var e := st.effects + [SendPuzzle(n, outs)];
      assert e[..|st.effects|] == st.effects;
      FanState(data, SaveDailyReply(st.prev, hs), e, None)
    case _ => st.(data := data, aborted := Some(TransportFailed(n)))
  }

  /** One recipient of the fan-out. Empty metadata is skipped; a missing flag
      defaults to opted in; an Unauthorized recipient is removed; a migrated
      chat is moved to its new id and sent to there; any other error, and a
      migration reported for a user, stops the round. */
  function Visit(id: int, st: FanState, outputs: Result<seq<Output>, SendError>,
                 outcome: int -> SendOutcome, chats: bool): (r: FanState)
    requires st.aborted.None?
    ensures Extends(st, r)
    ensures id !in st.data || IsEmpty(st.data[id]) ==> r == st
    ensures id in st.data && !IsEmpty(st.data[id]) && st.data[id].gameOfDay == Some(false) ==> r == st
    ensures id in st.data && !IsEmpty(st.data[id]) && st.data[id].gameOfDay != Some(false) ==>
              var m := st.data[id].(gameOfDay := Some(true));
              && (outputs.Err? ==> r.aborted == Some(SendFailed(outputs.error)) && r.data == st.data[id := m])
              && (outputs.Ok? && outcome(id).Delivered? ==>
                    r == FanState(st.data[id := m], SaveDailyReply(st.prev, outcome(id).handles),
                                  st.effects + [SendPuzzle(id, outputs.value)], None))
              && (outputs.Ok? && outcome(id).Unauthorized? ==>
                    r == FanState(st.data - {id}, st.prev, st.effects, None))
              && (outputs.Ok? && outcome(id).Migrated? && chats ==>
                    r == SendMigrated(outcome(id).newId, st, st.data[id := m][outcome(id).newId := m] - {id},
                                      outputs.value, outcome))
              && (outputs.Ok? && (outcome(id).Failed? || (outcome(id).Migrated? && !chats)) ==>
                    r.aborted == Some(TransportFailed(id)) && r.prev == st.prev && r.data == st.data[id := m])
  {
    if id !in st.data || IsEmpty(st.data[id]) then st
    else
      var m := st.data[id].(gameOfDay := Some(st.data[id].gameOfDay.GetOr(true)));
      var data := st.data[id := m];
      if !m.gameOfDay.value then st
      else match outputs
        case Err(e) => st.(data := data, aborted := Some(SendFailed(e)))
        case Ok(outs) =>
          match outcome(id)
          case Delivered(hs) =>
            var e := st.effects + [SendPuzzle(id, outs)];
            assert e[..|st.effects|] == st.effects;
            FanState(data, SaveDailyReply(st.prev, hs), e, None)
          case Unauthorized => st.(data := data - {id})
          case Migrated(n) =>
            if chats then SendMigrated(n, st, data[n := m] - {id}, outs, outcome)
            else st.(data := data, aborted := Some(TransportFailed(id)))
          case Failed => st.(data := data, aborted := Some(TransportFailed(id)))
  }

  /** Extending is transitive. */
  lemma ExtendsTrans(a: FanState, b: FanState, c: FanState)
    requires Extends(a, b) && Extends(b, c)
    ensures Extends(a, c)
  {
    assert c.prev[..|a.prev|] == c.prev[..|b.prev|][..|a.prev|];
    assert c.effects[..|a.effects|] == c.effects[..|b.effects|][..|a.effects|];
  }

  /** The loop over a snapshot of the keys; it stops at the first abort. */
  function FanOut(ids: seq<int>, st: FanState, outputs: Result<seq<Output>, SendError>,
                  outcome: int -> SendOutcome, chats: bool): (r: FanState)
    ensures st.aborted.Some? ==> r == st
    ensures Extends(st, r)
    decreases |ids|
  {
    if st.aborted.Some? || |ids| == 0 then st
    else
      var next := Visit(ids[0], st, outputs, outcome, chats);
      var r := FanOut(ids[1..], next, outputs, outcome, chats);
      ExtendsTrans(st, next, r);
      r
  }

  /** A recipient that was visited and opted out keeps its data untouched. */
  lemma OptedOutUntouched(id: int, st: FanState, outputs: Result<seq<Output>, SendError>,
                          outcome: int -> SendOutcome, chats: bool)
    requires st.aborted.None? && id in st.data && st.data[id].gameOfDay == Some(false)
    ensures Visit(id, st, outputs, outcome, chats) == st
  {
  }

  // ---------------------------------------------------------------------------
  // What a whole fan-out does

  /** A recipient the fan-out sends to: it has metadata and has not opted out. */
  predicate Eligible(data: map<int, Meta>, id: int) {
    id in data && !IsEmpty(data[id]) && data[id].gameOfDay != Some(false)
  }

  /** A recipient's metadata once the puzzle has been sent to it. */
  function OptedIn(m: Meta): Meta {
    m.(gameOfDay := Some(true))
  }

  /** Where a recipient's puzzle lands: the new id of a migrated chat, else
      the recipient itself. */
  function Destination(id: int, outcome: int -> SendOutcome): int {
    if outcome(id).Migrated? then outcome(id).newId else id
  }

  /** An eligible recipient lets the round go on when the puzzle could be
      read and the send was delivered, refused as Unauthorized, or, in the
      chat loop, migrated and then delivered at the new id. */
  predicate Passes(id: int, outputs: Result<seq<Output>, SendError>, outcome: int -> SendOutcome, chats: bool) {
    && outputs.Ok?
    && (|| outcome(id).Delivered? || outcome(id).Unauthorized?
        || (chats && outcome(id).Migrated? && outcome(outcome(id).newId).Delivered?))
  }

  /** A fan-out over ids finishes when every eligible recipient passes. */
  predicate Completes(ids: seq<int>, data: map<int, Meta>, outputs: Result<seq<Output>, SendError>,
                      outcome: int -> SendOutcome, chats: bool) {
    forall i :: 0 <= i < |ids| && Eligible(data, ids[i]) ==> Passes(ids[i], outputs, outcome, chats)
  }

  /** The recipient gets the puzzle: it is eligible and its destination
      accepted the send. */
  predicate Receives(data: map<int, Meta>, id: int, outcome: int -> SendOutcome) {
    Eligible(data, id) && outcome(Destination(id, outcome)).Delivered?
  }

  /** The sends of a fan-out, in recipient order: one puzzle to the
      destination of each recipient that gets it. */
  function Deliveries(ids: seq<int>, data: map<int, Meta>, outputs: Result<seq<Output>, SendError>,
                      outcome: int -> SendOutcome): seq<Effect>
    decreases |ids|
  {
    if |ids| == 0 then []
    else
      (if Receives(data, ids[0], outcome) && outputs.Ok? then [SendPuzzle(Destination(ids[0], outcome), outputs.value)]
       else [])
      + Deliveries(ids[1..], data, outputs, outcome)
  }

  /** The messages those sends return, in the same order. */
  function Replies(ids: seq<int>, data: map<int, Meta>, outcome: int -> SendOutcome): seq<Handle>
    decreases |ids|
  {
    if |ids| == 0 then []
    else
      (if Receives(data, ids[0], outcome) then outcome(Destination(ids[0], outcome)).handles else [])
      + Replies(ids[1..], data, outcome)
  }

  /** No id is listed twice. */
  predicate Distinct(ids: seq<int>) {
    forall i, j :: 0 <= i < j < |ids| ==> ids[i] != ids[j]
  }

  /** The order of a fan-out is a snapshot of the registry's keys, `list(data)`. */
  ghost predicate KeyOrder(data: map<int, Meta>, ids: seq<int>) {
    Distinct(ids) && forall id :: id in data <==> id in ids
  }

  /** Each recipient that migrates moves to an id of its own that is not
      among the recipients. */
  predicate FreshMigrations(ids: seq<int>, data: map<int, Meta>, outcome: int -> SendOutcome) {
    forall i :: 0 <= i < |ids| && Eligible(data, ids[i]) && outcome(ids[i]).Migrated? ==>
      && outcome(ids[i]).newId !in ids
      && forall j :: 0 <= j < |ids| && j != i && Eligible(data, ids[j]) && outcome(ids[j]).Migrated? ==>
           outcome(ids[j]).newId != outcome(ids[i]).newId
  }

  /** Some eligible recipient migrated to x. */
  predicate MigratedTo(ids: seq<int>, data: map<int, Meta>, outcome: int -> SendOutcome, x: int) {
    exists i :: 0 <= i < |ids| && Eligible(data, ids[i]) && outcome(ids[i]).Migrated? && outcome(ids[i]).newId == x
  }

  /** The registry a finished fan-out leaves: a recipient that got the
      puzzle at its own id stays, opted in; an Unauthorized one is removed;
      a migrated one is removed and its opted-in metadata is found at its
      new id; every other key keeps its metadata, or stays absent. */
  ghost predicate Settled(ids: seq<int>, data: map<int, Meta>, outcome: int -> SendOutcome, final: map<int, Meta>) {
    && (forall i :: 0 <= i < |ids| && Eligible(data, ids[i]) ==>
          && (ids[i] in final <==> outcome(ids[i]).Delivered?)
          && (outcome(ids[i]).Delivered? ==> final[ids[i]] == OptedIn(data[ids[i]]))
          && (outcome(ids[i]).Migrated? ==>
                outcome(ids[i]).newId in final && final[outcome(ids[i]).newId] == OptedIn(data[ids[i]])))
    && (forall x :: !(x in ids && Eligible(data, x)) && !MigratedTo(ids, data, outcome, x) ==>
          (x in final <==> x in data) && (x in data ==> final[x] == data[x]))
  }

  /** Recording two batches in turn records them together. */
  lemma SaveDailyReplyTwice(prev: seq<Handle>, a: seq<Handle>, b: seq<Handle>)
    ensures SaveDailyReply(SaveDailyReply(prev, a), b) == SaveDailyReply(prev, a + b)
  {
    DoubledAppend(a, b);
  }

  /** One visit: whether it lets the round go on, and what it sends and
      records when it does. */
  lemma VisitSends(id: int, st: FanState, outputs: Result<seq<Output>, SendError>,
                   outcome: int -> SendOutcome, chats: bool)
    requires st.aborted.None?
    ensures var v := Visit(id, st, outputs, outcome, chats);
            && (v.aborted.None? <==> !Eligible(st.data, id) || Passes(id, outputs, outcome, chats))
            && (!Eligible(st.data, id) ==> v == st)
            && (v.aborted.None? ==>
                  && v.effects == st.effects + (if Receives(st.data, id, outcome) && outputs.Ok?
                                                then [SendPuzzle(Destination(id, outcome), outputs.value)] else [])
                  && v.prev == SaveDailyReply(st.prev, if Receives(st.data, id, outcome)
                                                       then outcome(Destination(id, outcome)).handles else []))
  {
    var v := Visit(id, st, outputs, outcome, chats);
    if Eligible(st.data, id) && outputs.Ok? && v.aborted.None? {
      match outcome(id)
      case Delivered(hs) =>
      case Unauthorized =>
        assert v.prev == SaveDailyReply(st.prev, []);
      case Migrated(n) =>
      case Failed =>
    } else if v.aborted.None? {
      assert v.prev == SaveDailyReply(st.prev, []);
    }
  }

  /** One visit changes the registry only at the recipient and, for an
      eligible one, at its destination; a visit that lets the round go on
      leaves the recipient as Settled describes. */
  lemma VisitRegistry(id: int, st: FanState, outputs: Result<seq<Output>, SendError>,
                      outcome: int -> SendOutcome, chats: bool)
    requires st.aborted.None?
    ensures var v := Visit(id, st, outputs, outcome, chats);
            && (forall x :: x != id && (Eligible(st.data, id) ==> x != Destination(id, outcome)) ==>
                  (x in v.data <==> x in st.data) && (x in st.data ==> v.data[x] == st.data[x]))
            && (v.aborted.None? && Eligible(st.data, id) ==>
                  && (id in v.data <==> outcome(id).Delivered?)
                  && (outcome(id).Delivered? ==> v.data[id] == OptedIn(st.data[id]))
                  && (outcome(id).Migrated? ==> outcome(id).newId != id && outcome(id).newId in v.data
                                                && v.data[outcome(id).newId] == OptedIn(st.data[id])))
  {
  }

  /** Two registries agree on every listed id. */
  predicate SameAt(ids: seq<int>, a: map<int, Meta>, b: map<int, Meta>) {
    forall i :: 0 <= i < |ids| ==> (ids[i] in a <==> ids[i] in b) && (ids[i] in a ==> a[ids[i]] == b[ids[i]])
  }

  /** Registries that agree on the listed ids give the same reference
      fan-out over them. */
  lemma {:induction false} SameAtAgrees(ids: seq<int>, a: map<int, Meta>, b: map<int, Meta>,
                                        outputs: Result<seq<Output>, SendError>, outcome: int -> SendOutcome)
    requires SameAt(ids, a, b)
    ensures forall i :: 0 <= i < |ids| ==> Eligible(a, ids[i]) == Eligible(b, ids[i])
    ensures Deliveries(ids, a, outputs, outcome) == Deliveries(ids, b, outputs, outcome)
    ensures Replies(ids, a, outcome) == Replies(ids, b, outcome)
    decreases |ids|
  {
    if |ids| > 0 {
      assert SameAt(ids[1..], a, b) by {
        forall i | 0 <= i < |ids[1..]|
          ensures (ids[1..][i] in a <==> ids[1..][i] in b) && (ids[1..][i] in a ==> a[ids[1..][i]] == b[ids[1..][i]])
        {
          assert ids[1..][i] == ids[i + 1];
        }
      }
      SameAtAgrees(ids[1..], a, b, outputs, outcome);
      assert Eligible(a, ids[0]) == Eligible(b, ids[0]);
    }
  }

  /** After a visit that lets the round go on, the later recipients look the
      same in the new registry as in the old one, and the conditions of the
      whole-round lemmas carry over to them. */
  lemma FanTail(ids: seq<int>, st: FanState, outputs: Result<seq<Output>, SendError>,
                outcome: int -> SendOutcome, chats: bool)
    requires st.aborted.None? && |ids| > 0 && Distinct(ids)
    requires chats ==> FreshMigrations(ids, st.data, outcome)
    requires Visit(ids[0], st, outputs, outcome, chats).aborted.None?
    ensures var v := Visit(ids[0], st, outputs, outcome, chats);
            && Distinct(ids[1..]) && SameAt(ids[1..], st.data, v.data)
            && (chats ==> FreshMigrations(ids[1..], v.data, outcome))
  {
    var v := Visit(ids[0], st, outputs, outcome, chats);
    var tail := ids[1..];
    VisitSends(ids[0], st, outputs, outcome, chats);
    VisitRegistry(ids[0], st, outputs, outcome, chats);
    forall i | 0 <= i < |tail|
      ensures (tail[i] in st.data <==> tail[i] in v.data) && (tail[i] in st.data ==> st.data[tail[i]] == v.data[tail[i]])
    {
      assert tail[i] == ids[i + 1] && ids[i + 1] != ids[0];
      if Eligible(st.data, ids[0]) && outcome(ids[0]).Migrated? {
        assert chats;
        assert outcome(ids[0]).newId !in ids;
      }
    }
    SameAtAgrees(tail, st.data, v.data, outputs, outcome);
    if chats {
      forall i | 0 <= i < |tail| && Eligible(v.data, tail[i]) && outcome(tail[i]).Migrated?
        ensures && outcome(tail[i]).newId !in tail
                && forall j :: 0 <= j < |tail| && j != i && Eligible(v.data, tail[j]) && outcome(tail[j]).Migrated? ==>
                     outcome(tail[j]).newId != outcome(tail[i]).newId
      {
        assert tail[i] == ids[i + 1];
        forall j | 0 <= j < |tail| && j != i && Eligible(v.data, tail[j]) && outcome(tail[j]).Migrated?
          ensures outcome(tail[j]).newId != outcome(tail[i]).newId
        {
          assert tail[j] == ids[j + 1];
        }
      }
    }
  }

  /** A fan-out over distinct recipients finishes exactly when every
      eligible recipient passes. */
  lemma {:induction false} FanOutFinishes(ids: seq<int>, st: FanState, outputs: Result<seq<Output>, SendError>,
                                          outcome: int -> SendOutcome, chats: bool)
    requires st.aborted.None? && Distinct(ids)
    requires chats ==> FreshMigrations(ids, st.data, outcome)
    ensures FanOut(ids, st, outputs, outcome, chats).aborted.None? <==> Completes(ids, st.data, outputs, outcome, chats)
    decreases |ids|
  {
    if |ids| > 0 {
      var v := Visit(ids[0], st, outputs, outcome, chats);
      VisitSends(ids[0], st, outputs, outcome, chats);
      assert FanOut(ids, st, outputs, outcome, chats) == FanOut(ids[1..], v, outputs, outcome, chats);
      assert Completes(ids, st.data, outputs, outcome, chats) <==>
             (Eligible(st.data, ids[0]) ==> Passes(ids[0], outputs, outcome, chats))
             && Completes(ids[1..], st.data, outputs, outcome, chats)
        by {
          assert forall i :: 0 < i < |ids| ==> ids[i] == ids[1..][i - 1];
        }
      if v.aborted.None? {
        FanTail(ids, st, outputs, outcome, chats);
        FanOutFinishes(ids[1..], v, outputs, outcome, chats);
        SameAtAgrees(ids[1..], st.data, v.data, outputs, outcome);
      }
    }
  }

  /** The first visit of a fan-out whose first recipient passes, with what
      the rest of the fan-out starts from. */
  lemma FanStep(ids: seq<int>, st: FanState, outputs: Result<seq<Output>, SendError>,
                outcome: int -> SendOutcome, chats: bool) returns (v: FanState)
    requires st.aborted.None? && |ids| > 0 && Distinct(ids)
    requires chats ==> FreshMigrations(ids, st.data, outcome)
    requires Eligible(st.data, ids[0]) ==> Passes(ids[0], outputs, outcome, chats)
    ensures v.aborted.None?
    ensures FanOut(ids, st, outputs, outcome, chats) == FanOut(ids[1..], v, outputs, outcome, chats)
    ensures v.effects == st.effects + (if Receives(st.data, ids[0], outcome) && outputs.Ok?
                                       then [SendPuzzle(Destination(ids[0], outcome), outputs.value)] else [])
    ensures v.prev == SaveDailyReply(st.prev, if Receives(st.data, ids[0], outcome)
                                              then outcome(Destination(ids[0], outcome)).handles else [])
    ensures Distinct(ids[1..]) && SameAt(ids[1..], st.data, v.data)
    ensures chats ==> FreshMigrations(ids[1..], v.data, outcome)
    ensures VisitedAt(ids[0], st.data, v.data, outcome)
  {
    v := Visit(ids[0], st, outputs, outcome, chats);
    VisitSends(ids[0], st, outputs, outcome, chats);
    VisitRegistry(ids[0], st, outputs, outcome, chats);
    FanTail(ids, st, outputs, outcome, chats);
  }

  lemma EffectsAssoc(a: seq<Effect>, b: seq<Effect>, c: seq<Effect>)
    ensures (a + b) + c == a + (b + c)
  {
  }

  /** The conditions on the rest of a fan-out follow from those on the whole. */
  lemma CompletesTail(ids: seq<int>, a: map<int, Meta>, b: map<int, Meta>,
                      outputs: Result<seq<Output>, SendError>, outcome: int -> SendOutcome, chats: bool)
    requires |ids| > 0 && Completes(ids, a, outputs, outcome, chats) && SameAt(ids[1..], a, b)
    ensures Eligible(a, ids[0]) ==> Passes(ids[0], outputs, outcome, chats)
    ensures Completes(ids[1..], b, outputs, outcome, chats)
  {
    SameAtAgrees(ids[1..], a, b, outputs, outcome);
    assert forall i :: 0 <= i < |ids[1..]| ==> ids[1..][i] == ids[i + 1];
  }

  /** A fan-out that finishes sends the reference deliveries, in order,
      after the effects so far, and records their replies, each twice. */
  lemma {:induction false} FanOutSends(ids: seq<int>, st: FanState, outputs: Result<seq<Output>, SendError>,
                                       outcome: int -> SendOutcome, chats: bool)
    requires st.aborted.None? && Distinct(ids)
    requires chats ==> FreshMigrations(ids, st.data, outcome)
    requires Completes(ids, st.data, outputs, outcome, chats)
    ensures var r := FanOut(ids, st, outputs, outcome, chats);
            && r.effects == st.effects + Deliveries(ids, st.data, outputs, outcome)
            && r.prev == SaveDailyReply(st.prev, Replies(ids, st.data, outcome))
    decreases |ids|
  {
    if |ids| == 0 {
      assert st.effects + [] == st.effects;
      assert SaveDailyReply(st.prev, []) == st.prev;
    } else {
      assert Eligible(st.data, ids[0]) ==> Passes(ids[0], outputs, outcome, chats);
      var v := FanStep(ids, st, outputs, outcome, chats);
      CompletesTail(ids, st.data, v.data, outputs, outcome, chats);
      SameAtAgrees(ids[1..], st.data, v.data, outputs, outcome);
      FanOutSends(ids[1..], v, outputs, outcome, chats);
      var sent := if Receives(st.data, ids[0], outcome) && outputs.Ok?
                  then [SendPuzzle(Destination(ids[0], outcome), outputs.value)] else [];
      var later := Deliveries(ids[1..], st.data, outputs, outcome);
      var r := FanOut(ids[1..], v, outputs, outcome, chats);
      assert Deliveries(ids, st.data, outputs, outcome) == sent + later;
      assert r.effects == (st.effects + sent) + later;
      EffectsAssoc(st.effects, sent, later);
      var first := if Receives(st.data, ids[0], outcome) then outcome(Destination(ids[0], outcome)).handles else [];
      assert Replies(ids, st.data, outcome) == first + Replies(ids[1..], st.data, outcome);
      SaveDailyReplyTwice(st.prev, first, Replies(ids[1..], st.data, outcome));
    }
  }

  /** What one visit that lets the round go on does to the registry: it
      changes nothing but the recipient and, for an eligible one, its
      destination, and settles an eligible recipient. */
  ghost predicate VisitedAt(id: int, a: map<int, Meta>, b: map<int, Meta>, outcome: int -> SendOutcome) {
    && (!Eligible(a, id) ==> b == a)
    && (forall x :: x != id && (Eligible(a, id) ==> x != Destination(id, outcome)) ==>
          (x in b <==> x in a) && (x in a ==> b[x] == a[x]))
    && (Eligible(a, id) ==>
          && (id in b <==> outcome(id).Delivered?)
          && (outcome(id).Delivered? ==> b[id] == OptedIn(a[id]))
          && (outcome(id).Migrated? ==> outcome(id).newId != id && outcome(id).newId in b
                                        && b[outcome(id).newId] == OptedIn(a[id])))
  }

  /** In the user loop a finished fan-out has no migrations at all. */
  lemma FreshWithoutChats(ids: seq<int>, a: map<int, Meta>, outputs: Result<seq<Output>, SendError>,
                          outcome: int -> SendOutcome)
    requires Completes(ids, a, outputs, outcome, false)
    ensures FreshMigrations(ids, a, outcome)
  {
    forall i | 0 <= i < |ids| && Eligible(a, ids[i])
      ensures !outcome(ids[i]).Migrated?
    {
      assert Passes(ids[i], outputs, outcome, false);
    }
  }

  /** The conditions under which the registry after the first visit and the
      rest of the fan-out give the registry of the whole. */
  ghost predicate RegistryStep(ids: seq<int>, a: map<int, Meta>, b: map<int, Meta>, fin: map<int, Meta>,
                               outcome: int -> SendOutcome) {
    && |ids| > 0 && Distinct(ids) && FreshMigrations(ids, a, outcome)
    && VisitedAt(ids[0], a, b, outcome) && SameAt(ids[1..], a, b)
    && Settled(ids[1..], b, outcome, fin)
  }

  /** Nothing in the rest of the fan-out migrates to the first recipient or
      to the first recipient's new id. */
  lemma NotMigratedLater(ids: seq<int>, a: map<int, Meta>, b: map<int, Meta>, outcome: int -> SendOutcome, x: int)
    requires |ids| > 0 && FreshMigrations(ids, a, outcome) && SameAt(ids[1..], a, b)
    requires x == ids[0] || (Eligible(a, ids[0]) && outcome(ids[0]).Migrated? && x == outcome(ids[0]).newId)
    ensures !MigratedTo(ids[1..], b, outcome, x)
  {
    if MigratedTo(ids[1..], b, outcome, x) {
      assert false;
    }
  }


  /** The first recipient is settled. */
  lemma SettledHead(ids: seq<int>, a: map<int, Meta>, b: map<int, Meta>, fin: map<int, Meta>,
                    outcome: int -> SendOutcome)
    requires RegistryStep(ids, a, b, fin, outcome) && Eligible(a, ids[0])
    ensures ids[0] in fin <==> outcome(ids[0]).Delivered?
    ensures outcome(ids[0]).Delivered? ==> fin[ids[0]] == OptedIn(a[ids[0]])
    ensures outcome(ids[0]).Migrated? ==> outcome(ids[0]).newId in fin && fin[outcome(ids[0]).newId] == OptedIn(a[ids[0]])
  {
    var id := ids[0];
    assert id !in ids[1..] by {
      forall k | 0 <= k < |ids[1..]| ensures ids[1..][k] != id { assert ids[1..][k] == ids[k + 1]; }
    }
    NotMigratedLater(ids, a, b, outcome, id);
    if outcome(id).Migrated? {
      var n := outcome(id).newId;
      assert n !in ids;
      assert n !in ids[1..];
      NotMigratedLater(ids, a, b, outcome, n);
    }
  }

  /** The later recipients are settled. */
  lemma SettledLater(ids: seq<int>, a: map<int, Meta>, b: map<int, Meta>, fin: map<int, Meta>,
                     outcome: int -> SendOutcome, i: nat)
    requires RegistryStep(ids, a, b, fin, outcome) && 0 < i < |ids| && Eligible(a, ids[i])
    ensures ids[i] in fin <==> outcome(ids[i]).Delivered?
    ensures outcome(ids[i]).Delivered? ==> fin[ids[i]] == OptedIn(a[ids[i]])
    ensures outcome(ids[i]).Migrated? ==> outcome(ids[i]).newId in fin && fin[outcome(ids[i]).newId] == OptedIn(a[ids[i]])
  {
    assert ids[1..][i - 1] == ids[i];
    assert Eligible(b, ids[1..][i - 1]);
  }

  /** Every key no recipient settles keeps its metadata. */
  lemma SettledOthers(ids: seq<int>, a: map<int, Meta>, b: map<int, Meta>, fin: map<int, Meta>,
                      outcome: int -> SendOutcome, x: int)
    requires RegistryStep(ids, a, b, fin, outcome)
    requires !(x in ids && Eligible(a, x)) && !MigratedTo(ids, a, outcome, x)
    ensures (x in fin <==> x in a) && (x in a ==> fin[x] == a[x])
  {
    assert x != ids[0] || !Eligible(a, ids[0]);
    if Eligible(a, ids[0]) && outcome(ids[0]).Migrated? {
      assert x != outcome(ids[0]).newId;
    }
    assert !(x in ids[1..] && Eligible(b, x)) by {
      if x in ids[1..] {
        var k :| 0 <= k < |ids[1..]| && ids[1..][k] == x;
        assert ids[1..][k] == ids[k + 1];
      }
    }
    if MigratedTo(ids[1..], b, outcome, x) {
      assert false;
    }
  }

  /** The first visit and the rest of the fan-out together settle the whole. */
  lemma SettledStep(ids: seq<int>, a: map<int, Meta>, b: map<int, Meta>, fin: map<int, Meta>,
                    outcome: int -> SendOutcome)
    requires RegistryStep(ids, a, b, fin, outcome)
    ensures Settled(ids, a, outcome, fin)
  {
    forall i | 0 <= i < |ids| && Eligible(a, ids[i])
      ensures && (ids[i] in fin <==> outcome(ids[i]).Delivered?)
              && (outcome(ids[i]).Delivered? ==> fin[ids[i]] == OptedIn(a[ids[i]]))
              && (outcome(ids[i]).Migrated? ==>
                    outcome(ids[i]).newId in fin && fin[outcome(ids[i]).newId] == OptedIn(a[ids[i]]))
    {
      if i == 0 { SettledHead(ids, a, b, fin, outcome); } else { SettledLater(ids, a, b, fin, outcome, i); }
    }
    forall x | !(x in ids && Eligible(a, x)) && !MigratedTo(ids, a, outcome, x)
      ensures (x in fin <==> x in a) && (x in a ==> fin[x] == a[x])
    {
      SettledOthers(ids, a, b, fin, outcome, x);
    }
  }

  /** A fan-out that finishes leaves the registry Settled describes. */
  lemma {:induction false} FanOutRegistry(ids: seq<int>, st: FanState, outputs: Result<seq<Output>, SendError>,
                                          outcome: int -> SendOutcome, chats: bool)
    requires st.aborted.None? && Distinct(ids)
    requires chats ==> FreshMigrations(ids, st.data, outcome)
    requires Completes(ids, st.data, outputs, outcome, chats)
    ensures Settled(ids, st.data, outcome, FanOut(ids, st, outputs, outcome, chats).data)
    decreases |ids|
  {
    if !chats {
      FreshWithoutChats(ids, st.data, outputs, outcome);
    }
    if |ids| > 0 {
      assert Eligible(st.data, ids[0]) ==> Passes(ids[0], outputs, outcome, chats);
      var v := FanStep(ids, st, outputs, outcome, chats);
      CompletesTail(ids, st.data, v.data, outputs, outcome, chats);
      FanOutRegistry(ids[1..], v, outputs, outcome, chats);
      SettledStep(ids, st.data, v.data, FanOut(ids[1..], v, outputs, outcome, chats).data, outcome);
    }
  }

  /** What a round leaves behind: the daily state, both registries, the
      transport effects, the persisted (pointer, buffer) if the round
      finished, and the exception that stopped it otherwise. */
  datatype Round = Round(
    daily: Daily,
    users: map<int, Meta>,
    chats: map<int, Meta>,
    effects: seq<Effect>,
    persisted: Option<(int, seq<Handle>)>,
    failure: Option<Failure>)

  /** The retraction: only when the last round left messages, the puzzle
      advances and those messages are deleted and forgotten. */
  function Retract(d: Daily, draw: int): (r: (Daily, seq<Effect>))
    requires d.kernel.Config().randomLevels ==> 0 <= draw < |d.kernel.Levels()|
    ensures |d.prev| == 0 ==> r == (d, [])
    ensures |d.prev| > 0 ==> r == (Daily(Next(d.kernel, draw), []), DeleteAll(d.prev))
  {
    if |d.prev| > 0 then (Daily(Next(d.kernel, draw), []), DeleteAll(d.prev)) else (d, [])
  }

  /** Reading the puzzle and sending it to every opted-in user, then chat,
      after the retraction's deletes, each registry in the order of a
      snapshot of its keys; the pointer is persisted exactly when the round
      finishes. */
  function Broadcast(d: Daily, deletes: seq<Effect>, users: map<int, Meta>, userOrder: seq<int>,
                     chats: map<int, Meta>, chatOrder: seq<int>, outcome: int -> SendOutcome): (r: Round)
    requires KeyOrder(users, userOrder) && KeyOrder(chats, chatOrder)
    ensures r.daily.kernel.pointer == d.kernel.pointer
    ensures |deletes| <= |r.effects| && r.effects[..|deletes|] == deletes
    ensures forall i :: |deletes| <= i < |r.effects| ==> r.effects[i].SendPuzzle?
    ensures r.persisted.Some? <==> r.failure.None?
    ensures r.persisted.Some? ==> r.persisted.value == (r.daily.kernel.pointer, r.daily.prev)
    ensures Refresh(d.kernel).failure.Some? ==> r.effects == deletes && r.users == users && r.chats == chats
  {
    var loaded := Refresh(d.kernel);
    var d2 := d.(kernel := loaded.kernel);
    if loaded.failure.Some? then
      assert deletes[..|deletes|] == deletes;
      Round(d2, users, chats, deletes, None, Some(KernelFailed(loaded.failure.value)))
    else
      var outputs := Send(loaded.kernel.question, loaded.kernel.puzzleDir, true);
      var start := FanState(users, d2.prev, deletes, None);
      var u := FanOut(userOrder, start, outputs, outcome, false);
      if u.aborted.Some? then Round(d2.(prev := u.prev), u.data, chats, u.effects, None, u.aborted)
      else
        var c := FanOut(chatOrder, FanState(chats, u.prev, u.effects, None), outputs, outcome, true);
        ExtendsTrans(start, u.(data := chats), c);
        var d3 := d2.(prev := c.prev);
        if c.aborted.Some? then Round(d3, u.data, c.data, c.effects, None, c.aborted)
        else Round(d3, u.data, c.data, c.effects, Some((d3.kernel.pointer, d3.prev)), None)
  }

  /** A round over the registries' own key orders finishes exactly when the
      puzzle reads and every eligible user and chat passes. It then sends,
      after the deletes, one puzzle to each recipient that gets it, users
      first and chats after, each in order; records their replies, each
      twice; and leaves both registries settled. */
  lemma BroadcastReachesEveryone(d: Daily, deletes: seq<Effect>, users: map<int, Meta>, userOrder: seq<int>,
                                 chats: map<int, Meta>, chatOrder: seq<int>, outcome: int -> SendOutcome)
    requires KeyOrder(users, userOrder) && KeyOrder(chats, chatOrder)
    requires FreshMigrations(chatOrder, chats, outcome)
    ensures var r := Broadcast(d, deletes, users, userOrder, chats, chatOrder, outcome);
            var loaded := Refresh(d.kernel);
            var outputs := Send(loaded.kernel.question, loaded.kernel.puzzleDir, true);
            && (r.failure.None? <==> && loaded.failure.None?
                                     && Completes(userOrder, users, outputs, outcome, false)
                                     && Completes(chatOrder, chats, outputs, outcome, true))
            && (r.failure.None? ==>
                  && r.effects == deletes + Deliveries(userOrder, users, outputs, outcome)
                                          + Deliveries(chatOrder, chats, outputs, outcome)
                  && r.daily.prev == SaveDailyReply(d.prev, Replies(userOrder, users, outcome)
                                                            + Replies(chatOrder, chats, outcome))
                  && Settled(userOrder, users, outcome, r.users)
                  && Settled(chatOrder, chats, outcome, r.chats))
  {
    var loaded := Refresh(d.kernel);
    if loaded.failure.None? {
      var outputs := Send(loaded.kernel.question, loaded.kernel.puzzleDir, true);
      var start := FanState(users, d.prev, deletes, None);
      FanOutFinishes(userOrder, start, outputs, outcome, false);
      var u := FanOut(userOrder, start, outputs, outcome, false);
      if u.aborted.None? {
        FanOutSends(userOrder, start, outputs, outcome, false);
        FanOutRegistry(userOrder, start, outputs, outcome, false);
        var next := FanState(chats, u.prev, u.effects, None);
        FanOutFinishes(chatOrder, next, outputs, outcome, true);
        var c := FanOut(chatOrder, next, outputs, outcome, true);
        if c.aborted.None? {
          FanOutSends(chatOrder, next, outputs, outcome, true);
          FanOutRegistry(chatOrder, next, outputs, outcome, true);
          EffectsAssoc(deletes, Deliveries(userOrder, users, outputs, outcome), Deliveries(chatOrder, chats, outputs, outcome));
          SaveDailyReplyTwice(d.prev, Replies(userOrder, users, outcome), Replies(chatOrder, chats, outcome));
        }
      }
    }
  }

  /** Game.__game_of_the_day_send: retract, read the puzzle, send it to every
      opted-in user and then chat, and persist the pointer and buffer. */
  function DailyRound(d: Daily, users: map<int, Meta>, userOrder: seq<int>,
                      chats: map<int, Meta>, chatOrder: seq<int>,
                      outcome: int -> SendOutcome, draw: int): (r: Round)
    requires d.kernel.Config().randomLevels ==> 0 <= draw < |d.kernel.Levels()|
    requires KeyOrder(users, userOrder) && KeyOrder(chats, chatOrder)
    // retraction comes first, and only when there are previous messages
    ensures |d.prev| > 0 ==> |r.effects| >= |d.prev| && r.effects[..|d.prev|] == DeleteAll(d.prev)
                             && r.daily.kernel.pointer == Next(d.kernel, draw).pointer
    ensures |d.prev| == 0 ==> r.daily.kernel.pointer == d.kernel.pointer
    ensures |d.prev| == 0 ==> forall i :: 0 <= i < |r.effects| ==> !r.effects[i].Delete?
    // the round is persisted exactly when it finishes
    ensures r.persisted.Some? <==> r.failure.None?
    ensures r.persisted.Some? ==> r.persisted.value == (r.daily.kernel.pointer, r.daily.prev)
  {
    var (d1, deletes) := Retract(d, draw);
    Broadcast(d1, deletes, users, userOrder, chats, chatOrder, outcome)
  }

  /** Each round that finds previous messages advances the shared puzzle by
      exactly one next; a round without them keeps the level. */
  lemma DailyRoundAdvancesOnlyAfterRetraction(d: Daily, users: map<int, Meta>, userOrder: seq<int>,
                                              chats: map<int, Meta>, chatOrder: seq<int>,
                                              outcome: int -> SendOutcome, draw: int)
    requires !d.kernel.Config().randomLevels && d.kernel.Valid()
    requires KeyOrder(users, userOrder) && KeyOrder(chats, chatOrder)
    ensures var r := DailyRound(d, users, userOrder, chats, chatOrder, outcome, draw);
            && (|d.prev| > 0 && d.kernel.pointer + 1 < |d.kernel.Levels()| ==> r.daily.kernel.pointer == d.kernel.pointer + 1)
            && (|d.prev| > 0 && d.kernel.pointer + 1 >= |d.kernel.Levels()| ==> r.daily.kernel.pointer == d.kernel.pointer)
            && (|d.prev| == 0 ==> r.daily.kernel.pointer == d.kernel.pointer)
  {
  }

  // ---------------------------------------------------------------------------
  // Level buttons

  const LevelButtonPrefix: string := "game_level"

  datatype LevelButtonError = NoNameAfterNumber | NumberNotInteger

  /** The button for one entry of the jump menu, an entry being a level name
      split at "-@": labelled "N+1. name" with spaces for underscores, its
      data "game_level-N-@name". */
  function LevelButton(parts: seq<string>): (r: Result<Button, LevelButtonError>)
    ensures |parts| < 2 ==> r == Err(NoNameAfterNumber)
    ensures |parts| >= 2 ==>
              match ParseInt(parts[0])
              case None => r == Err(NumberNotInteger)
              case Some(n) => r == Ok(Button(IntToString(n + 1) + ". " + UnderscoresToSpaces(parts[1]),
                                             LevelButtonData(parts)))
  {
    if |parts| < 2 then Err(NoNameAfterNumber)
    else match ParseInt(parts[0])
      case None => Err(NumberNotInteger)
      case Some(n) => Ok(Button(IntToString(n + 1) + ". " + UnderscoresToSpaces(parts[1]),
                                LevelButtonData(parts)))
  }

  /** The callback data of a level's button: the prefix, then the level's
      number and name joined back with "-@". */
  function LevelButtonData(parts: seq<string>): string
    requires |parts| >= 2
  {
    LevelButtonPrefix + "-" + parts[0] + "-@" + parts[1]
  }

  function LevelButtons(entries: seq<seq<string>>): (r: Result<seq<Button>, LevelButtonError>)
    ensures r.Ok? ==> |r.value| == |entries| && forall i :: 0 <= i < |entries| ==> LevelButton(entries[i]) == Ok(r.value[i])
    decreases |entries|
  {
    if |entries| == 0 then Ok([])
    else match LevelButton(entries[0])
      case Err(e) => Err(e)
      case Ok(b) =>
        match LevelButtons(entries[1..])
        case Err(e) => Err(e)
        case Ok(bs) =>
          assert forall i :: 0 < i < |entries| ==> entries[i] == entries[1..][i - 1];
          Ok([b] + bs)
  }

  const DoneButton: Button := Button("Done", "done")

  /** Game.__levels_markup: no menu when the game does not allow jumping or
      offers no level; otherwise one button per row, then a Done row. */
  function LevelsMarkup(k: Kernel): (r: Result<Option<seq<seq<Button>>>, LevelButtonError>)
    ensures GetAllLevels(k).None? ==> r == Ok(None)
    ensures GetAllLevels(k).Some? && |GetAllLevels(k).value| == 0 ==> r == Ok(None)
    ensures r.Ok? && r.value.Some? ==>
              var entries := GetAllLevels(k).value;
              var rows := r.value.value;
              && LevelButtons(entries).Ok?
              && |rows| == |entries| + 1 && Last(rows) == [DoneButton]
              && forall i :: 0 <= i < |entries| ==> rows[i] == [LevelButtons(entries).value[i]]
  {
    match GetAllLevels(k)
    case None => Ok(None)
    case Some(entries) =>
      if |entries| == 0 then Ok(None)
      else match LevelButtons(entries)
        case Err(e) => Err(e)
        case Ok(bs) => Ok(Some(seq(|bs|, i requires 0 <= i < |bs| => [bs[i]]) + [[DoneButton]]))
  }

  /** Game.__levels_button: the level name is everything after the first '-'. */
  function DecodeLevelButton(data: string): string {
    DropFirstField(data, "-")
  }

  /** A level whose name holds exactly one "-@" comes back from its button's
      data unchanged. */
  lemma LevelButtonRoundTrip(level: string)
    requires |SplitSep(level, "-@")| == 2
    ensures var parts := SplitSep(level, "-@");
            LevelButton(parts).Ok? ==> DecodeLevelButton(LevelButton(parts).value.data) == level
  {
    LevelDataRoundTrip(level, SplitSep(level, "-@"));
  }

  lemma LevelDataRoundTrip(level: string, parts: seq<string>)
    requires parts == SplitSep(level, "-@") && |parts| == 2
    ensures DecodeLevelButton(LevelButtonData(parts)) == level
  {
    JoinSplit(level, "-@");
    assert parts[1..] == [parts[1]];
    assert JoinWith(parts, "-@") == parts[0] + "-@" + parts[1];
    var data := LevelButtonData(parts);
    assert data == LevelButtonPrefix + "-" + (parts[0] + "-@" + parts[1]);
    DropFirstFieldAfterHead(LevelButtonPrefix, "-", parts[0] + "-@" + parts[1]);
  }

  /** Pressing the button of a listed level jumps the kernel to that level. */
  lemma LevelButtonSelectsLevel(k: Kernel, level: string)
    requires k.Config().changeLevelStep != 0 && level in k.Levels()
    requires |SplitSep(level, "-@")| == 2 && LevelButton(SplitSep(level, "-@")).Ok?
    ensures var r := SetLevelByName(k, DecodeLevelButton(LevelButton(SplitSep(level, "-@")).value.data));
            r.Valid() && k.Levels()[r.pointer] == level
  {
    LevelButtonRoundTrip(level);
  }
}
