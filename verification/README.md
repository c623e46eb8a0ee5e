# QashqayQuizBot core in Dafny

This project models the logic of a Telegram quiz bot and of the bots used
to write its puzzles. A *game* is a directory of *levels*. Each level holds a
pickled *question* (a list of message records) and a list of *answer lines*.

- **Kernel.** A chat plays a game through a kernel that keeps:
  - a pointer into the level list;
  - the current level's parsed exact answers, guesses (`?trigger?reply`) and hints (`<hint>`).
- **Game bot.** For every chat the game bot keeps metadata with defaults. In
  no-spoiler mode it also keeps a stack of sent messages, which it deletes
  when a level is solved. Once a day it sends one shared puzzle to every
  opted-in user and chat.
- **Author bots.** They are state machines over `action ∈ {None, question, answer}`.
  They collect a puzzle's messages and then its answer lines, and save both
  under `folder/user/N-@name`. The older author bot keeps its buffers per user
  rather than per chat.

Modules, one per source file:

| file | module | models |
|---|---|---|
| results.dfy | Results | `Option` and `Result`, the stand-ins for Python's `None` and exceptions |
| strings.dfy | Strings | Python's `lower`/`upper` (ASCII and the Cyrillic block U+0400–U+04FF), `strip`, `split`, `join`, `int`/`str`, the `ё→е` normalisation and the sentence-capitalising regex |
| qtypes.dfy | QTypes | `FileType` and the media flag |
| readwrite.dfy | ReadWrite | `QReadWrite.py` |
| kernel.dfy | QuizKernel | `QQuizGame/QQuizKernel.py` |
| game.dfy | Game | `QQuizGame/Game.py`: chat metadata, answering, the daily puzzle, level buttons |
| author.dfy | Author | `QQuizGame/QAuthor.py` |
| legacy_author.dfy | LegacyAuthor | `QAuthor.py` |

How the model represents the program:

- **Dictionary keys.** A key that may be absent is an `Option` field.
- **Exceptions.** A Python exception is an explicit failure or crash value. Whatever the handler had already changed before it raised is kept.
- **Telegram.** Messages are opaque handles. A handler's sends and deletes are returned as a list of effects.
- **Send outcomes and message ids.** Delivered, `Unauthorized`, `ChatMigrated` or another error are supplied as a function argument. Messages sent during one step get consecutive ids from a given first id.
- **Random level.** The level chosen by `numpy.random.randint` is an argument.
- **Disk.** Game directories, their listings (already in natural order) and the level files are a map from path to a value.

## Model

| member | source | states |
|---|---|---|
| Strings.StripTrims | QQuizGame/QQuizKernel.py:61-65 | `strip()` removes exactly the leading and trailing whitespace: the result is an infix, everything cut off is whitespace, and the result neither starts nor ends with whitespace |
| Strings.CaseRoundTrip | QQuizGame/QQuizKernel.py:84-88 | on every letter with two cases, including the paired letters of U+0460–U+04FF such as Қ/қ and Ӏ/ӏ, upper and lower casing undo each other; every other character is left as it is |
| Strings.NormIgnoresCaseAndYo | QQuizGame/QQuizKernel.py:84-88 | `lower()` followed by `ё→е` maps upper-cased, lower-cased and е→ё-respelled text to the same key |
| Strings.NormIdempotent | QQuizGame/QQuizKernel.py:84 | normalising twice is normalising once |
| Strings.ParsePrintedInt | QReadWrite.py:49-51 | `int(str(n)) == n` for every integer, negative ones included |
| Strings.SplitHasPiecesIffContains | QQuizGame/QQuizKernel.py:59 | `split(sep)` yields two or more pieces exactly when `sep in s` |
| Strings.SplitCharCount | QQuizGame/QQuizKernel.py:59 | splitting on a character yields one piece more than the number of occurrences of that character |
| Strings.UnderscoresToSpacesReplaces | QReadWrite.py:51 | `" ".join(name.split('_'))` replaces each underscore by a space and keeps every other character |
| Strings.Capitalise | QQuizGame/QQuizKernel.py:79 | the regex substitution upper-cases exactly the letters that follow the start or one of `.?!` after optional whitespace, and changes no other character |
| Strings.CapitaliseKeepsLowerForm | QQuizGame/QQuizKernel.py:130 | capitalising never changes a text's lower-cased form |
| ReadWrite.GetMessageMeta | QReadWrite.py:13-35 | the kind is the first present one in the fixed order text … animation; a message with none has no kind; the media flag is set exactly for photo through animation; the two fields are (text, ""), (longitude, latitude), (phone, first name), (largest photo size id, caption), (sticker id, "") or (file id, caption) for the other media |
| ReadWrite.PushPuzzle | QReadWrite.py:38-40 | appends exactly one record of a present kind, not downloaded, carrying that kind's two fields, keeping the buffer before it; a message of no kind raises |
| ReadWrite.PreviewResendsMessage | QReadWrite.py:37-82 | a pushed message, previewed, is re-sent as its own kind with its first field inline, and with its second field as caption or coordinate exactly when it is not a text, sticker or video note |
| ReadWrite.PushAnswer | QReadWrite.py:43-44 | appends exactly the message text |
| ReadWrite.Title | QReadWrite.py:49-51 | a directory without `-@` gets no title line |
| ReadWrite.Send | QReadWrite.py:47-82 | the optional title comes first, then one output per record, in order and of the same kind; a record is read from disk exactly when it is downloaded and this is not a preview |
| ReadWrite.PuzzleDirName | QReadWrite.py:88-90 | the directory is `N` for an unnamed puzzle; for a name without `-@` it is `N-@name`, which splits back into `[N, name]` |
| ReadWrite.SaveToFile | QReadWrite.py:85-109 | a sender without a username raises before anything is written; otherwise the puzzle goes to `dir/folder/user/N[-@name]` with N the folder's counter; that counter grows by exactly one and the others stay; with media saving on, each media record, and only those, is marked downloaded |
| ReadWrite.MarkDownloaded | QReadWrite.py:98-102 | media records become downloaded, all others are unchanged |
| ReadWrite.SavedPuzzleTitle | QReadWrite.py:49-51 | a puzzle saved under a name without `-@` and `/` is announced as `N+1. name`, with spaces for underscores |
| ReadWrite.GameFoldersMarkup | QReadWrite.py:112-121 | the rows, read in order, are the buttons of the names not starting with `.`; every row but the last holds two buttons, and the last holds one or two |
| ReadWrite.FolderButtonAsWrittenTruncates | QQuizGame/QAuthor.py:272 | reading the folder back as the text after the last `-` loses every part of a name up to its last `-` |
| ReadWrite.FolderButtonRoundTrip | QQuizGame/QAuthor.py:269-274 | reading the folder back as everything after the first `-` returns every folder name intact |
| QuizKernel.ListLevels | QQuizGame/QQuizKernel.py:46-48 | the levels are exactly the listed directories not starting with `-` |
| QuizKernel.ListLevelsKeepsOrder | QQuizGame/QQuizKernel.py:46-48 | filtering keeps the listing's order and multiplicity: what is before an entry in the listing stays before it among the levels |
| QuizKernel.PyIndex | QQuizGame/QQuizKernel.py:52 | a list index is valid exactly in `[-n, n)`; a negative one counts from the end |
| QuizKernel.Classify | QQuizGame/QQuizKernel.py:58-65 | a line is a guess exactly when it starts with `?` and has exactly one more `?`; otherwise a hint exactly when it is enclosed in `<` and `>`; otherwise an answer; each reading reassembles the line |
| QuizKernel.CategoriesPartitionLines | QQuizGame/QQuizKernel.py:58-65 | every answer line lands in exactly one of the three lists |
| QuizKernel.AnswersOfMembers | QQuizGame/QQuizKernel.py:64-65 | the exact answers are exactly the lower-cased, stripped, `ё→е` forms of the answer lines |
| QuizKernel.HintsOfMembers | QQuizGame/QQuizKernel.py:62-63 | the hints are exactly the lower-cased, stripped contents of the hint lines |
| QuizKernel.GuessesOfMembers | QQuizGame/QQuizKernel.py:59-61 | the guesses are exactly the (normalised trigger, stripped reply) pairs of the guess lines |
| QuizKernel.ParseAnswers | QQuizGame/QQuizKernel.py:55-71 | the three lists are never empty: a category with no line holds the single placeholder `""` or `["", ""]`, otherwise exactly its lines' forms |
| QuizKernel.CheckAnswer | QQuizGame/QQuizKernel.py:83-91 | CORRECT exactly when the normalised input is an exact answer; otherwise the reply of the first guess with that trigger, else "Нет" |
| QuizKernel.CheckAnswerIgnoresCaseAndYo | QQuizGame/QQuizKernel.py:84-88 | inputs that differ only in case or in е/ё get the same verdict |
| QuizKernel.AnswerLineAccepted | QQuizGame/QQuizKernel.py:65 | every answer line, typed in either case, is accepted |
| QuizKernel.Refresh | QQuizGame/QQuizKernel.py:50-71 | reading the pointed level succeeds exactly when the pointer is a valid index and the level's files exist; it then loads that level's question and parsed answers; an invalid index raises and changes nothing |
| QuizKernel.Create | QQuizGame/QQuizKernel.py:24-39 | a kernel opens its game at the given index and reads that level; a missing game or level raises |
| QuizKernel.RebuildPreservesLevel | QQuizGame/QQuizKernel.py:43-44 | rebuilding a kernel from `(working_dir, pointer)` gives back the same game at the same level |
| QuizKernel.Next | QQuizGame/QQuizKernel.py:97-104 | only the pointer changes, and it stays at most `len(levels)-1`; random mode takes the draw; sequential mode adds one and clamps at the last level |
| QuizKernel.NextPreservesValid | QQuizGame/QQuizKernel.py:97-104 | a valid pointer stays valid |
| QuizKernel.NextIdempotentAtLast | QQuizGame/QQuizKernel.py:102-104 | in sequential mode `next` at the last level changes nothing |
| QuizKernel.SetLevel | QQuizGame/QQuizKernel.py:113-115 | the pointer moves only when jumping is enabled |
| QuizKernel.SetLevelUnchecked | QQuizGame/QQuizKernel.py:113-115 | a jump outside `[-n, n)` makes the next read raise; a negative jump reads a level counted from the end |
| QuizKernel.SetLevelByName | QQuizGame/QQuizKernel.py:117-123 | with jumping enabled a listed name moves the pointer to its first occurrence; otherwise nothing changes |
| QuizKernel.Reset | QQuizGame/QQuizKernel.py:125-126 | the pointer becomes 0 whatever the configuration |
| QuizKernel.SliceAt | QQuizGame/QQuizKernel.py:109 | `levels[::step]` holds `levels[j*step]` for a positive step and `levels[n-1+j*step]` for a negative one |
| QuizKernel.JumpEntriesMembers | QQuizGame/QQuizKernel.py:109 | the entries are exactly the `-@`-split names of the levels not containing "The End" |
| QuizKernel.JumpEntriesAt | QQuizGame/QQuizKernel.py:109 | without "The End" levels, entry i is the split name of level i, one entry per level |
| QuizKernel.GetAllLevels | QQuizGame/QQuizKernel.py:106-111 | None exactly when the step is 0; otherwise the split names of the strided levels, in stride order, dropping those with "The End" |
| QuizKernel.JumpMenuOrder | QQuizGame/QQuizKernel.py:106-111 | without "The End" levels, the menu has one entry per strided level and entry j names level `j*step` (or `n-1+j*step` for a negative step) |
| QuizKernel.JumpEntryPosition | QQuizGame/QQuizKernel.py:109 | a level with "The End" is not offered; any other level is offered right after the entries of the levels before it, split at "-@" |
| QuizKernel.JumpMenuPosition | QQuizGame/QQuizKernel.py:106-111 | with "The End" levels present, strided level j, if not one of them, is offered after the entries of the strided levels before it, and names level `j*step` (or `n-1+j*step` for a negative step) |
| QuizKernel.StrideOfThreeOverNine | QQuizGame/QQuizKernel.py:109 | over nine levels a step of 3 offers levels 0, 3 and 6 |
| QuizKernel.GetHint | QQuizGame/QQuizKernel.py:77-81 | the no-hint sentence when the last hint is empty; otherwise the comma-joined hints, changed only by sentence capitalisation |
| QuizKernel.GetAnswer | QQuizGame/QQuizKernel.py:128-132 | the refusal sentence unless answers may be shown; otherwise the first answer, changed only by sentence capitalisation |
| QuizKernel.DisclosedAnswerAccepted | QQuizGame/QQuizKernel.py:128-132 | the answer the bot discloses is itself accepted as correct |
| Game.FillFlags | QQuizGame/Game.py:111-118 | each missing flag gets its default and each present one is kept |
| Game.CheckVersion | QQuizGame/Game.py:119-126 | a stale or missing version is set to the current one and the game's kernel is rebuilt from its saved directory and pointer; a missing kernel raises |
| Game.GetChatMetaAsWritten | QQuizGame/Game.py:105-110 | metadata without `quiz` is left with an empty kernel map, because the kernel constructor raises |
| Game.AsWrittenChatNeverGetsKernel | QQuizGame/Game.py:105-126 | after that failure the chat still has no kernel on the next call, and a version rebuild then raises KeyError |
| Game.GetChatMeta | QQuizGame/Game.py:96-127 | empty metadata is returned unchanged; otherwise every missing key gets its default and present keys are kept; other games' kernels are untouched; when `quiz` was missing or the version stale, the chat's game has a kernel |
| Game.VersionRebuildKeepsLevel | QQuizGame/Game.py:119-126 | a version rebuild keeps the game's directory and level pointer |
| Game.GetChatMetaFills | QQuizGame/Game.py:102-126 | after a successful call every key the handlers read is present |
| Game.SaveReply | QQuizGame/Game.py:129-151 | the sent messages are appended to the stack in order in no-spoiler mode; otherwise the stack is unchanged |
| Game.SaveDailyReply | QQuizGame/Game.py:135-151 | for the daily puzzle each sent message is appended twice, in order, after the previous ones |
| Game.DoubledAppend | QQuizGame/Game.py:139-145 | recording two batches one after the other is recording them together |
| Game.SubmittedAnswer | QQuizGame/Game.py:233-238 | a command's answer is its arguments joined and lower-cased; a plain text is the answer only when text answers are enabled, and is otherwise ignored |
| Game.AnswerStep | QQuizGame/Game.py:227-275 | answering never changes the chat's game, flags or other games' kernels |
| Game.AnswerIgnored | QQuizGame/Game.py:236-238 | an ignored text is only recorded |
| Game.AnswerEmptyPrompts | QQuizGame/Game.py:239-244 | an empty answer records the prompt and does not consult the kernel |
| Game.AnswerWithoutKernelFails | QQuizGame/Game.py:250-252 | a chat without a kernel for its game raises KeyError and sends nothing |
| Game.AnswerWrongReplies | QQuizGame/Game.py:270-272 | a string verdict is sent and recorded, and the pointer is unchanged |
| Game.SolvedStep | QQuizGame/Game.py:257-268 | in no-spoiler mode every stacked message gets one delete, first; the stack is cleared; the next puzzle is sent last and only its messages are recorded |
| Game.AnswerCorrectAdvances | QQuizGame/Game.py:253-268 | a correct answer calls `next` exactly once, deletes the stack and the answer itself in no-spoiler mode, deletes nothing otherwise, and leaves only new messages stacked |
| Game.SolvedStackIsFresh | QQuizGame/Game.py:257-268 | no message stacked after a correct answer is among those deleted |
| Game.Visit | QQuizGame/Game.py:619-656 | empty and opted-out recipients are skipped; a missing flag becomes opted-in; a delivery is recorded twice; Unauthorized removes the recipient and continues; a migrated chat moves to its new id and the puzzle is sent there |
| Game.SendMigrated | QQuizGame/Game.py:649-656 | the send to the migrated id either delivers and is recorded, or stops the round |
| Game.OptedOutUntouched | QQuizGame/Game.py:624 | an opted-out recipient is neither sent to nor changed |
| Game.FanOut | QQuizGame/Game.py:620-656 | the fan-out only appends sends and records, and does nothing once the round has stopped |
| Game.FanOutFinishes | QQuizGame/Game.py:620-656 | the loop finishes exactly when the puzzle could be read and every recipient with metadata that has not opted out was delivered to, refused as Unauthorized, or, in the chat loop, migrated and delivered at its new id |
| Game.FanOutSends | QQuizGame/Game.py:620-656 | a finished loop sends the puzzle to each receiving recipient in key order, at its own id or its migrated id, and records exactly those recipients' messages, in the same order |
| Game.FanOutRegistry | QQuizGame/Game.py:620-656 | after a finished loop every key is settled: skipped ones unchanged, missing flags set, Unauthorized ones removed, migrated ones moved to their new id; keys outside the order are untouched |
| Game.Retract | QQuizGame/Game.py:600-610 | with previous messages the shared puzzle advances and every previous message gets a delete; without them nothing happens |
| Game.Broadcast | QQuizGame/Game.py:612-658 | users then chats, each in the key order of its snapshot; after the deletes come only sends; the pointer and record are persisted exactly when the loop finishes |
| Game.BroadcastReachesEveryone | QQuizGame/Game.py:612-658 | the round finishes exactly when the puzzle loads and both loops complete; then the effects are the deletes, the users' deliveries and the chats' deliveries, the record holds exactly those replies, and both registries are settled |
| Game.DailyRound | QQuizGame/Game.py:599-658 | retraction comes before any send and only when there were previous messages; the state is persisted exactly when the round finishes |
| Game.DailyRoundAdvancesOnlyAfterRetraction | QQuizGame/Game.py:600-601 | in sequential mode the shared pointer moves by one, clamped, when there were previous messages, and stays otherwise |
| Game.LevelButton | QQuizGame/Game.py:533-536 | the label is `int(num)+1. name` with spaces for underscores and the data `game_level-num-@name`; a non-numeric number raises |
| Game.LevelsMarkup | QQuizGame/Game.py:525-539 | no keyboard when jumping is disabled or no level is offered; otherwise one row per offered level, in order, then a Done row |
| Game.LevelButtonRoundTrip | QQuizGame/Game.py:557 | the button data of a level with exactly one `-@` decodes back to the level name |
| Game.LevelButtonSelectsLevel | QQuizGame/Game.py:557-559 | pressing a level's button moves the kernel to that level |
| Author.GetAuthorMeta | QQuizGame/QAuthor.py:52-71 | each absent key gets its default and each present one is kept |
| Author.GetAuthorMetaKeepsFilled | QQuizGame/QAuthor.py:58-69 | filled metadata is returned unchanged |
| Author.FreshChatIsIdle | QQuizGame/QAuthor.py:58-69 | a new chat starts idle, with empty buffers, the default folder and no name |
| Author.StartEntry | QQuizGame/QAuthor.py:103-108 | a buffer gains an empty last entry and loses its oldest, so a buffer of at most one entry ends with exactly one |
| Author.CheckName | QQuizGame/QAuthor.py:193-199 | a name is valid exactly when it contains none of `< >|\:()&;.,-?*` |
| Author.ValidNameTitle | QQuizGame/QAuthor.py:96-98 | a valid non-empty name is announced back as `N+1. name` when the puzzle is sent |
| Author.New | QQuizGame/QAuthor.py:89-110 | refused with no change unless idle and the name is valid; otherwise the state is question, the name is set and both buffers get a fresh empty entry; the state invariant is kept |
| Author.DataGetter | QQuizGame/QAuthor.py:112-125 | an edit is refused; in question one record is appended to the current puzzle; in answer one text line is appended and non-text is refused; idle changes nothing |
| Author.End | QQuizGame/QAuthor.py:127-142 | refused with no change unless in answer with at least one answer line; then idle, and the current puzzle and answers are saved with the folder counter advanced; a sender without a username is thanked, the chat goes idle, nothing is saved and the handler raises |
| Author.SetAnswer | QQuizGame/QAuthor.py:144-150 | question moves to answer only when the current puzzle is non-empty; otherwise nothing changes |
| Author.SetName | QQuizGame/QAuthor.py:201-212 | while writing, a valid name replaces the old one and an invalid one is refused; when idle it is refused |
| Author.DeleteLastUpdate | QQuizGame/QAuthor.py:214-224 | exactly the last item of the active buffer's current entry is removed, or nothing changes |
| Author.DeleteLastQuestion | QQuizGame/QAuthor.py:226-243 | in question the current puzzle is dropped, in answer the current puzzle and answer list; the state becomes idle exactly when something was dropped |
| Author.HardReset | QQuizGame/QAuthor.py:254-258 | idle with both buffers empty, counters, folder and name kept |
| Author.GameFolderButton | QQuizGame/QAuthor.py:269-274 | the chosen folder is written to, and confirmed |
| Author.GameFolderButtonSelects | QQuizGame/QAuthor.py:269-274 | pressing a folder's button selects exactly that folder |
| Author.PreviewAnswersMatchKernel | QQuizGame/QAuthor.py:177-187 | the preview shows as answers exactly the lines the game will accept as exact answers |
| Author.PreviewHintsMatchKernel | QQuizGame/QAuthor.py:182-184 | the preview shows as hints exactly the game's hints |
| Author.PreviewGuessesMatchKernel | QQuizGame/QAuthor.py:178-181 | the preview shows as guesses exactly the game's guesses |
| Author.Preview | QQuizGame/QAuthor.py:157-191 | nothing changes; idle shows "Nothing in buffer"; otherwise the name (when the puzzle has items), the puzzle or "Nothing in buffer", and in answer the summary |
| Author.AuthoringRound | QQuizGame/QAuthor.py:89-142 | `/new`, one message, `/setanswer`, one answer, `/end` save that one record and that answer under `folder/user/N-@name` and leave the chat idle |
| Author.NewThenMessage | QQuizGame/QAuthor.py:89-125 | after `/new` and one message the current puzzle holds exactly that message |
| Author.AnswerThenEnd | QQuizGame/QAuthor.py:112-142 | from a started puzzle, `/setanswer`, one answer and `/end` save it |
| Author.InstructedGuessBecomesAnswer | QQuizGame/QAuthor.py:151-155 | a guess written `~guess~Message` as the reply instructs is stored by the game as an exact answer, not as a guess |
| Author.InstructedGuessIsGuess | QQuizGame/QQuizKernel.py:59-61 | a guess written `?guess?Message` is stored as that guess |
| LegacyAuthor.Start | QAuthor.py:62-75 | only metadata with no key is initialised (idle, no counters, folder "random_flood", no name); otherwise nothing changes |
| LegacyAuthor.StartedChatIsIdle | QAuthor.py:62-94 | after `/start`, `/new` and `/setanswer` do not raise |
| LegacyAuthor.New | QAuthor.py:77-94 | raises when `/start` never ran; refused unless idle; otherwise the name is taken unchecked and only this user's buffers get a fresh entry |
| LegacyAuthor.NewAcceptsAnyName | QAuthor.py:82-84 | a name the newer bot refuses is accepted |
| LegacyAuthor.DataGetter | QAuthor.py:96-106 | as in the newer bot, on this user's buffers; an edited message raises |
| LegacyAuthor.OtherMemberStranded | QAuthor.py:96-100 | in a group, once one member has started a question, a member with no buffer who sends a message makes the handler raise |
| LegacyAuthor.End | QAuthor.py:108-124 | a save happens only in answer with an answer line and every key present, and then exactly when the sender has a username; the chat is idle before the save, and without a username the author is thanked, nothing is saved and the handler raises, even when the counter or name key is also missing, because the folder key and the username are read first |
| LegacyAuthor.SetAnswer | QAuthor.py:126-136 | question moves to answer only when this user's current puzzle is non-empty |
| LegacyAuthor.SetName | QAuthor.py:170-178 | while writing, any name is set; when idle it is refused |
| LegacyAuthor.DeleteLastUpdate | QAuthor.py:180-191 | exactly the last item of this user's active entry is removed, or nothing changes |
| LegacyAuthor.DeleteLastQuestion | QAuthor.py:193-211 | this user's current entries are dropped and the chat goes idle exactly when something was dropped |
| LegacyAuthor.HardReset | QAuthor.py:221-226 | the chat goes idle and only this user's buffers are emptied |
| LegacyAuthor.LegacyPreviewOf | QAuthor.py:155-166 | the preview raises exactly when some line starts with `~` and has no second `~` |
| LegacyAuthor.Preview | QAuthor.py:138-168 | nothing changes; the name line is shown whenever there is a name; the summary is shown outside the question state |
| LegacyAuthor.AgreesWithNewerBot | QAuthor.py:77-94 | with all keys present, `/new` with a valid name, `/setanswer`, both deletes and `/hardreset` do to one user's draft what the newer bot does to the chat's draft |

## Left out

- Telegram transport:
  - sending, deleting, edits, `reply_markup` keyboards and dispatcher wiring;
  - handler texts other than the ones the model records;
  - the failures of `deleteMessage`, which the source swallows;
  - the keyword arguments `reply_markup`/`game_of_day` that `Game.py` passes to `send`. `send` in `QReadWrite.py` does not accept them.
- Pickle, YAML, the file system and the `getFile` downloads: game directories, configs and level files are given values.
- `natsorted`: the listing is taken as already in natural order. The listing is also fixed for the life of a kernel, and so are the level files: the source re-reads `question.pickle` and `answer.pickle` on every read, so it would see edits to the live game directory.
- Python's `int()` on underscores or non-ASCII digits, and `lower()`/`upper()` outside ASCII and the Cyrillic block U+0400–U+04FF (Latin-1 and other Latin letters, Greek, the Cyrillic Supplement U+0500–U+052F and the other Cyrillic extension blocks).
- Concurrency, the scheduler, `MassiveSender` and polling.
- Logging and MongoDB.
- Admin broadcast and the settings handlers.
- `__start`, `__help`, `__question`, `__hint`, `__get_answer`, `__reset` and `__repeat_goth` in `Game.py`. They are thin wrappers around the kernel operations modelled here.
- `QGame.py`, the placeholder `QQuizKernel.py`, `make_new.py`, `make_new_game.py` and `start_bots.py`.
- `__set_game_folder`, `__get_current_state`, `__get_game_folder` and `__help` in both author bots.
  - The newer bot calls `parse_game_folders_markup` with two arguments. `QReadWrite.py` defines it with one.
  - The folder listing itself is modelled as `ReadWrite.GameFoldersMarkup`.
- `__start` of the newer author bot: it writes the same defaults `__get_chat_meta` fills in.
- LegacyAuthor: `__game_folder_button` of the older bot is not modelled separately. It decodes exactly as the newer one does.
- QuizKernel.Next: in random mode the draw must lie in `[0, len(levels))`. `randint(0, 0)` on a game without levels raises, and that is not modelled.
- Author.GameFolderButton: uses the corrected decoding, not the `split('-')[-1]` of the source (see Findings).
- Game.FanOutFinishes, Game.FanOutSends, Game.FanOutRegistry and Game.BroadcastReachesEveryone: the whole-loop results are stated for distinct ids and, in the chat loop, only when each migrated chat moves to a new id of its own that is not in the snapshot. A migration onto a listed id would be visited again, as the loop over `list(chats)` would do; that case is covered only step by step by Game.Visit and Game.FanOut.
- ReadWrite.Send: a failing record makes the whole send fail with no outputs, while the source has already sent the title and the records before it. A bad title fails before anything is sent. The only failure at a record is a downloaded record whose first field is not text, which ReadWrite.MarkDownloaded never produces.
- Game.GetChatMetaAsWritten: a game without `config.yaml` raises FileNotFoundError in the constructor before the bot is used as a level index; the model reports both as `BotAsLevelIndex`, and in both the chat keeps no kernel.
- Game.GetChatMeta: models the evidently intended kernel construction at level 0, not the constructor call as written (see Findings).

## Findings

| source | as written | input that shows it | evidently intended | confidence | as-written member | corrected member |
|---|---|---|---|---|---|---|
| QQuizGame/QAuthor.py:272 | the folder is read back from the button data as `data.split('-')[-1]` | a folder `my-game` has data `puzzname-my-game` and comes back as `game` | everything after the first `-`, as `Game.py:557` decodes level buttons | high, not executed | ReadWrite.FolderButtonAsWrittenTruncates | ReadWrite.FolderButtonRoundTrip |
| QQuizGame/Game.py:108-110 | `QuizKernel(path_dir, context.bot, chat_id)` passes the bot as `last_question` | any non-empty chat metadata without a `quiz` key: `levels[bot]` raises TypeError and `quiz` stays `{}` | `QuizKernel(path_dir, 0, context.bot, chat_id)`: a kernel at level 0 and the game's intro message | high, not executed | Game.AsWrittenChatNeverGetsKernel | Game.GetChatMeta |
| QQuizGame/QAuthor.py:151-155 | the answer-state reply tells authors to write guesses as `~guess~Message` | the line `~kyiv~warmer` is stored by the game as an exact answer, and no guess is made | `?guess?Message`, the form the game reads as a guess | medium, not executed | Author.InstructedGuessBecomesAnswer | Author.InstructedGuessIsGuess |
