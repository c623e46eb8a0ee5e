/** How puzzle messages are captured into buffers, turned back into outgoing
    messages, named on disk, and offered as game-folder buttons. Files,
    pickling and the Telegram bot are abstracted: a message is a record of
    its optional parts, and sending produces a list of outputs. */
module ReadWrite {
  import opened Results
  import opened QTypes
  import opened Strings

  /** A value stored in a buffer record: text, a number (coordinates) or None. */
  datatype Field = FText(s: string) | FNum(x: real) | FNone

  /** One stored puzzle message, the list [type, first, second, is_media, downloaded]. */
  datatype Item = Item(kind: FileType, first: Field, second: Field, isMedia: bool, downloaded: bool)

  datatype LocationPart = LocationPart(longitude: real, latitude: real)
  datatype ContactPart = ContactPart(phoneNumber: string, firstName: string)

  /** An incoming message. Absent parts are None; an empty text or an empty
      list of photo sizes is as absent as None, since Python tests truthiness.
      Media parts carry their file id. */
  datatype Message = Message(
    text: string,
    location: Option<LocationPart>,
    contact: Option<ContactPart>,
    photo: seq<string>,
    sticker: Option<string>,
    audio: Option<string>,
    voice: Option<string>,
    video: Option<string>,
    videoNote: Option<string>,
    document: Option<string>,
    animation: Option<string>,
    caption: Option<string>)

  /** Whether the message carries a part of the given kind. */
  predicate Present(m: Message, t: FileType) {
    match t
    case Text => m.text != ""
    case Location => m.location.Some?
    case Contact => m.contact.Some?
    case Photo => |m.photo| > 0
    case Sticker => m.sticker.Some?
    case Audio => m.audio.Some?
    case Voice => m.voice.Some?
    case Video => m.video.Some?
    case VideoNote => m.videoNote.Some?
    case Document => m.document.Some?
    case Animation => m.animation.Some?
  }

  datatype MessageMeta = MessageMeta(kind: FileType, isMedia: bool, first: Field, second: Field)

  function CaptionField(m: Message): Field {
    match m.caption
    case Some(c) => FText(c)
    case None => FNone
  }

  function FileIdField(id: Option<string>): Field {
    match id
    case Some(f) => FText(f)
    case None => FNone
  }

  /** The file id of a media part: the last (largest) photo size, or the
      part's own id. */
  function MediaFileId(m: Message, t: FileType): Option<string> {
    match t
    case Photo => if |m.photo| > 0 then Some(Last(m.photo)) else None
    case Sticker => m.sticker
    case Audio => m.audio
    case Voice => m.voice
    case Video => m.video
    case VideoNote => m.videoNote
    case Document => m.document
    case Animation => m.animation
    case _ => None
  }

  /** The first field kept for a message of kind t: the text, the longitude,
      the phone number, or the media file id. */
  predicate FirstCarried(m: Message, t: FileType, f: Field) {
    match t
    case Text => f == FText(m.text)
    case Location => m.location.Some? && f == FNum(m.location.value.longitude)
    case Contact => m.contact.Some? && f == FText(m.contact.value.phoneNumber)
    case _ => MediaFileId(m, t).Some? && f == FText(MediaFileId(m, t).value)
  }

  /** The second field kept for a message of kind t: empty for a text or a
      sticker, the latitude, the contact's first name, or else the caption. */
  predicate SecondCarried(m: Message, t: FileType, f: Field) {
    match t
    case Text => f == FText("")
    case Sticker => f == FText("")
    case Location => m.location.Some? && f == FNum(m.location.value.latitude)
    case Contact => m.contact.Some? && f == FText(m.contact.value.firstName)
    case _ => f == CaptionField(m)
  }

  /** The kind of a message is the first kind present in the fixed order text,
      location, contact, photo, sticker, audio, voice, video, video note,
      document, animation; a message with none of them has no kind. */
  function GetMessageMeta(m: Message): (r: Option<MessageMeta>)
    ensures r.None? ==> forall t :: !Present(m, t)
    ensures r.Some? ==> Present(m, r.value.kind)
    ensures r.Some? ==> forall t :: Rank(t) < Rank(r.value.kind) ==> !Present(m, t)
    ensures r.Some? ==> r.value.isMedia == IsMedia(r.value.kind)
    ensures r.Some? ==> FirstCarried(m, r.value.kind, r.value.first) && SecondCarried(m, r.value.kind, r.value.second)
  {
    if m.text != "" then Some(MessageMeta(Text, false, FText(m.text), FText("")))
    else if m.location.Some? then
      Some(MessageMeta(Location, false, FNum(m.location.value.longitude), FNum(m.location.value.latitude)))
    else if m.contact.Some? then
      Some(MessageMeta(Contact, false, FText(m.contact.value.phoneNumber), FText(m.contact.value.firstName)))
    else if |m.photo| > 0 then Some(MessageMeta(Photo, true, FText(Last(m.photo)), CaptionField(m)))
    else if m.sticker.Some? then Some(MessageMeta(Sticker, true, FileIdField(m.sticker), FText("")))
    else if m.audio.Some? then Some(MessageMeta(Audio, true, FileIdField(m.audio), CaptionField(m)))
    else if m.voice.Some? then Some(MessageMeta(Voice, true, FileIdField(m.voice), CaptionField(m)))
    else if m.video.Some? then Some(MessageMeta(Video, true, FileIdField(m.video), CaptionField(m)))
    else if m.videoNote.Some? then Some(MessageMeta(VideoNote, true, FileIdField(m.videoNote), CaptionField(m)))
    else if m.document.Some? then Some(MessageMeta(Document, true, FileIdField(m.document), CaptionField(m)))
    else if m.animation.Some? then Some(MessageMeta(Animation, true, FileIdField(m.animation), CaptionField(m)))
    else None
  }

  /** Appends the message as one record that is not yet downloaded. A message
      without any known part makes the Python unpacking fail (None here). */
  function PushPuzzle(m: Message, buffer: seq<Item>): (r: Option<seq<Item>>)
    ensures r.Some? <==> exists t :: Present(m, t)
    ensures r.Some? ==> |r.value| == |buffer| + 1 && r.value[..|buffer|] == buffer
    ensures r.Some? ==> var it := r.value[|buffer|];
                        && Present(m, it.kind) && it.isMedia == IsMedia(it.kind) && !it.downloaded
                        && FirstCarried(m, it.kind, it.first) && SecondCarried(m, it.kind, it.second)
  {
    match GetMessageMeta(m)
    case None => None
    case Some(meta) =>
      var r := buffer + [Item(meta.kind, meta.first, meta.second, meta.isMedia, false)];
      assert r[..|buffer|] == buffer;
      Some(r)
  }

  /** Appends the text of the message to an answer buffer. */
  function PushAnswer(m: Message, buffer: seq<string>): (r: seq<string>)
    ensures |r| == |buffer| + 1 && r[..|buffer|] == buffer && Last(r) == m.text
  {
    buffer + [m.text]
  }

  // ---------------------------------------------------------------------------
  // Paths

  /** Python's os.path.join(a, b) on POSIX. */
  function PathJoin(a: string, b: string): string {
    if StartsWith(b, "/") then b
    else if a == "" || EndsWith(a, "/") then a + b
    else a + "/" + b
  }

  /** The last path segment of a join is the joined name, when that name has
      no slash. */
  lemma LastSegmentOfJoin(a: string, b: string)
    requires '/' !in b
    ensures Last(SplitSep(PathJoin(a, b), "/")) == b
  {
    assert |b| == 0 || b[0] != '/';
    if a == "" {
      assert PathJoin(a, b) == b;
      ContainsCharIff(b, '/');
      SplitWithoutSep(b, "/");
    } else if EndsWith(a, "/") {
      var x := a[..|a| - 1];
      assert a == x + ['/'];
      assert a + b == x + ['/'] + b;
      assert PathJoin(a, b) == a + b;
      LastPieceAfterSep(x, '/', b);
    } else {
      LastPieceAfterSep(a, '/', b);
    }
  }

  lemma ContainsAfterJoin(a: string, b: string, sub: string)
    requires Contains(b, sub) && !StartsWith(b, "/")
    ensures Contains(PathJoin(a, b), sub)
  {
    if a == "" || EndsWith(a, "/") {
      ContainsAfterPrefix(a, b, sub);
    } else {
      ContainsAfterPrefix(a + "/", b, sub);
    }
  }

  // ---------------------------------------------------------------------------
  // Sending a buffer

  /** What is handed to the bot for one message: a stored field, or a file
      read from the puzzle directory. */
  datatype Payload = Inline(field: Field) | FromDisk(path: string)

  /** One message the bot sends: its kind, its main payload and, for kinds
      that have one, the second argument (latitude, first name or caption). */
  datatype Output = Output(kind: FileType, body: Payload, extra: Option<Field>)

  datatype SendError =
    | TitleNotTwoParts   // the unpacking `num, name = ...split('-@')` fails
    | TitleNotNumber     // int(num) fails
    | FileIdNotText      // os.path.join on a non-string stored field

  function TextOutput(s: string): Output {
    Output(Text, Inline(FText(s)), None)
  }

  /** The title a puzzle directory `.../N-@name` is announced with:
      "N+1. name" with underscores shown as spaces; no title without `-@`. */
  function Title(puzzleDir: string): (r: Result<Option<string>, SendError>)
    ensures r == Ok(None) <==> !Contains(puzzleDir, "-@")
  {
    if !Contains(puzzleDir, "-@") then Ok(None)
    else TitleOfParts(SplitSep(Last(SplitSep(puzzleDir, "/")), "-@"))
  }

  /** The title of a last path segment already split at "-@". */
  function TitleOfParts(parts: seq<string>): (r: Result<Option<string>, SendError>)
    ensures r.Ok? ==> r.value.Some?
  {
    if |parts| != 2 then Err(TitleNotTwoParts)
    else match ParseInt(parts[0])
      case None => Err(TitleNotNumber)
      case Some(n) => Ok(Some(IntToString(n + 1) + ". " + UnderscoresToSpaces(parts[1])))
  }

  /** The second argument each kind of send takes from a record. */
  function ExtraField(item: Item): Option<Field> {
    match item.kind
    case Text => None
    case Sticker => None
    case VideoNote => None
    case _ => Some(item.second)
  }

  /** A downloaded media record is read from the puzzle directory unless this
      is a preview; every other record is sent from its stored field. */
  function ItemOutput(item: Item, puzzleDir: string, preview: bool): (r: Result<Output, SendError>)
    ensures r.Ok? ==> r.value.kind == item.kind
    ensures r.Ok? ==> (r.value.body.FromDisk? <==> item.downloaded && !preview)
    ensures r.Err? ==> item.downloaded && !preview && !item.first.FText?
  {
    if item.downloaded && !preview then
      match item.first
      case FText(f) => Ok(Output(item.kind, FromDisk(PathJoin(puzzleDir, f)), ExtraField(item)))
      case _ => Err(FileIdNotText)
    else Ok(Output(item.kind, Inline(item.first), ExtraField(item)))
  }

  /** A captured message shown in a preview is sent back as it came: an
      output of its kind whose payload is the message's first field and
      whose second argument, for the kinds whose send takes one, is its
      second field. */
  lemma PreviewResendsMessage(m: Message, buffer: seq<Item>, dir: string)
    requires exists t :: Present(m, t)
    ensures var it := Last(PushPuzzle(m, buffer).value);
            var o := ItemOutput(it, dir, true);
            && o.Ok? && Present(m, o.value.kind)
            && o.value.body.Inline? && FirstCarried(m, o.value.kind, o.value.body.field)
            && (o.value.extra.None? <==> o.value.kind in {Text, Sticker, VideoNote})
            && (o.value.extra.Some? ==> SecondCarried(m, o.value.kind, o.value.extra.value))
  {
  }

  /** One output per record, of the record's kind, read from disk exactly
      when the record is a downloaded one outside a preview. */
  predicate OutputsFollow(outs: seq<Output>, buffer: seq<Item>, preview: bool) {
    && |outs| == |buffer|
    && forall i :: 0 <= i < |buffer| ==>
         && outs[i].kind == buffer[i].kind
         && (outs[i].body.FromDisk? <==> buffer[i].downloaded && !preview)
  }

  function ItemOutputs(buffer: seq<Item>, puzzleDir: string, preview: bool): (r: Result<seq<Output>, SendError>)
    ensures r.Ok? ==> |r.value| == |buffer|
    ensures r.Ok? ==> forall i :: 0 <= i < |buffer| ==> ItemOutput(buffer[i], puzzleDir, preview) == Ok(r.value[i])
    ensures r.Ok? ==> OutputsFollow(r.value, buffer, preview)
    ensures r.Err? ==> exists i :: 0 <= i < |buffer| && ItemOutput(buffer[i], puzzleDir, preview).Err?
    decreases |buffer|
  {
    if |buffer| == 0 then Ok([])
    else match ItemOutput(buffer[0], puzzleDir, preview)
      case Err(e) => Err(e)
      case Ok(o) =>
        match ItemOutputs(buffer[1..], puzzleDir, preview)
        case Err(e) =>
          ghost var i :| 0 <= i < |buffer[1..]| && ItemOutput(buffer[1..][i], puzzleDir, preview).Err?;
          assert ItemOutput(buffer[i + 1], puzzleDir, preview).Err?;
          Err(e)
        case Ok(os) => Ok([o] + os)
  }

  /** QReadWrite.send: the optional title, then exactly one output per record
      in buffer order. */
  function Send(buffer: seq<Item>, puzzleDir: string, preview: bool): (r: Result<seq<Output>, SendError>)
    ensures r.Ok? ==> var t := if Contains(puzzleDir, "-@") then 1 else 0;
                      && |r.value| == |buffer| + t
                      && (t == 1 ==> Title(puzzleDir).Ok? && r.value[0] == TextOutput(Title(puzzleDir).value.value))
                      && OutputsFollow(r.value[t..], buffer, preview)
    ensures r.Err? ==> Title(puzzleDir).Err?
                       || exists i :: 0 <= i < |buffer| && ItemOutput(buffer[i], puzzleDir, preview).Err?
  {
    match Title(puzzleDir)
    case Err(e) => Err(e)
    case Ok(title) =>
      match ItemOutputs(buffer, puzzleDir, preview)
      case Err(e) => Err(e)
      case Ok(os) => Ok(WithTitle(title, os))
  }

  /** The title, if any, followed by the records' outputs. */
  function WithTitle(title: Option<string>, os: seq<Output>): (r: seq<Output>)
    ensures title.None? ==> r == os
    ensures title.Some? ==> |r| == |os| + 1 && r[0] == TextOutput(title.value) && r[1..] == os
  {
    match title
    case None => os
    case Some(t) => [TextOutput(t)] + os
  }

  // ---------------------------------------------------------------------------
  // Saving an authored puzzle

  /** The number of puzzles saved to a folder so far (a defaultdict(int)). */
  function Counter(counters: map<string, nat>, folder: string): nat {
    if folder in counters then counters[folder] else 0
  }

  /** The directory name of the n-th puzzle: "n", or "n-@name" for a named one. */
  function PuzzleDirName(n: nat, name: string): (r: string)
    ensures name == "" ==> r == NatToString(n)
    ensures name != "" && !Contains(name, "-@") ==> SplitSep(r, "-@") == [NatToString(n), name]
  {
    if name != "" then
      PuzzleDirNameSplits(n, name);
      NatToString(n) + "-@" + name
    else NatToString(n)
  }

  lemma PuzzleDirNameSplits(n: nat, name: string)
    ensures !Contains(name, "-@") ==> SplitSep(NatToString(n) + "-@" + name, "-@") == [NatToString(n), name]
  {
    if !Contains(name, "-@") {
      var d := NatToString(n);
      assert forall k :: 0 <= k < |d| ==> IsDigit(d[k]);
      SplitTwo(d, "-@", name);
    }
  }

  /** Sets the downloaded flag of every media record. */
  function MarkDownloaded(items: seq<Item>): (r: seq<Item>)
    ensures |r| == |items|
    ensures forall i :: 0 <= i < |items| ==>
              r[i] == if items[i].isMedia then items[i].(downloaded := true) else items[i]
  {
    seq(|items|, i requires 0 <= i < |items| =>
      if items[i].isMedia then items[i].(downloaded := true) else items[i])
  }

  datatype Saved = Saved(
    dir: string,           // the puzzle directory written to
    questionFile: string,  // question.pickle inside it
    answerFile: string,    // answer.pickle inside it
    items: seq<Item>,      // the question records as pickled
    answers: seq<string>,  // the answer lines as pickled
    counters: map<string, nat>)

  /** Why save_to_file raises before writing anything. */
  datatype SaveError =
    | NoUsername   // os.path.join with from_user.username None raises TypeError

  /** QReadWrite.save_to_file: writes the puzzle to
      puzzleDir/folder/username/N[-@name], N being the folder's counter,
      which then goes up by one; other folders' counters stay. A Telegram
      user need not have a username, and without one the first join raises
      before anything is written. */
  function SaveToFile(items: seq<Item>, answers: seq<string>, username: Option<string>, folder: string,
                      counters: map<string, nat>, name: string, puzzleDir: string,
                      saveMedia: bool): (r: Result<Saved, SaveError>)
    ensures r.Err? <==> username.None?
    ensures r.Err? ==> r.error == NoUsername
    ensures r.Ok? ==> var s := r.value;
              && s.dir == PathJoin(PathJoin(PathJoin(puzzleDir, folder), username.value),
                                   PuzzleDirName(Counter(counters, folder), name))
              && s.questionFile == PathJoin(s.dir, "question.pickle")
              && s.answerFile == PathJoin(s.dir, "answer.pickle")
              && s.answers == answers
              && Counter(s.counters, folder) == Counter(counters, folder) + 1
              && (forall f :: f != folder ==> Counter(s.counters, f) == Counter(counters, f))
              && |s.items| == |items|
              && forall i :: 0 <= i < |items| ==>
                   s.items[i] == if saveMedia && items[i].isMedia then items[i].(downloaded := true) else items[i]
  {
    match username
    case None => Err(NoUsername)
    case Some(user) =>
      var userDir := PathJoin(PathJoin(puzzleDir, folder), user);
      var n := Counter(counters, folder);
      var dir := PathJoin(userDir, PuzzleDirName(n, name));
      Ok(Saved(dir, PathJoin(dir, "question.pickle"), PathJoin(dir, "answer.pickle"),
               if saveMedia then MarkDownloaded(items) else items,
               answers, counters[folder := n + 1]))
  }

  /** Unfolds Title for a directory whose last segment splits into a number
      and a name. */
  lemma TitleOfSegment(dir: string, seg: string, num: string, n: int, name: string)
    requires Contains(dir, "-@")
    requires Last(SplitSep(dir, "/")) == seg
    requires SplitSep(seg, "-@") == [num, name]
    requires ParseInt(num) == Some(n)
    ensures Title(dir) == Ok(Some(IntToString(n + 1) + ". " + UnderscoresToSpaces(name)))
  {
    TitleOfTwoParts(num, n, name);
    assert Title(dir) == TitleOfParts(SplitSep(seg, "-@"));
  }

  lemma TitleOfTwoParts(num: string, n: int, name: string)
    requires ParseInt(num) == Some(n)
    ensures TitleOfParts([num, name]) == Ok(Some(IntToString(n + 1) + ". " + UnderscoresToSpaces(name)))
  {
    var parts := [num, name];
    assert |parts| == 2 && parts[0] == num && parts[1] == name;
  }

  lemma NoSlashInDirName(n: nat, name: string)
    requires name != "" && '/' !in name
    ensures '/' !in PuzzleDirName(n, name)
    ensures !StartsWith(PuzzleDirName(n, name), "/")
  {
    var digits := NatToString(n);
    var seg := PuzzleDirName(n, name);
    assert seg == digits + "-@" + name;
    forall k | 0 <= k < |seg|
      ensures seg[k] != '/'
    {
      if k < |digits| {
        assert seg[k] == digits[k] && IsDigit(digits[k]);
      } else if k >= |digits| + 2 {
        assert seg[k] == name[k - |digits| - 2];
      }
    }
    assert seg[0] != '/';
  }

  lemma ContainsInfix(d: string, sep: string, r: string)
    ensures Contains(d + sep + r, sep)
  {
    assert sep <= sep + r;
    assert d + sep + r == d + (sep + r);
    ContainsAfterPrefix(d, sep + r, sep);
  }

  /** A named puzzle saved as number n is announced as "n+1. name" when its
      directory is sent. */
  lemma SavedPuzzleTitle(userDir: string, n: nat, name: string)
    requires name != "" && !Contains(name, "-@") && '/' !in name
    ensures Title(PathJoin(userDir, PuzzleDirName(n, name)))
            == Ok(Some(IntToString(n + 1) + ". " + UnderscoresToSpaces(name)))
  {
    var digits := NatToString(n);
    var seg := PuzzleDirName(n, name);
    var dir := PathJoin(userDir, seg);
    assert seg == digits + "-@" + name;
    NoSlashInDirName(n, name);
    LastSegmentOfJoin(userDir, seg);
    ContainsInfix(digits, "-@", name);
    ContainsAfterJoin(userDir, seg, "-@");
    ParsePrintedInt(n);
    TitleOfSegment(dir, seg, digits, n, name);
  }

  // ---------------------------------------------------------------------------
  // Game folder buttons

  datatype Button = Button(caption: string, data: string)

  function FolderButton(dir: string): Button {
    Button(dir, "puzzname-" + dir)
  }

  /** The buttons offered for a listing: one per name not starting with '.',
      in listing order. */
  function FolderButtons(dirs: seq<string>): seq<Button>
    decreases |dirs|
  {
    if |dirs| == 0 then []
    else FolderButtons(dirs[..|dirs| - 1])
         + (if StartsWith(Last(dirs), ".") then [] else [FolderButton(Last(dirs))])
  }

  function Flatten(rows: seq<seq<Button>>): seq<Button>
    decreases |rows|
  {
    if |rows| == 0 then [] else Flatten(rows[..|rows| - 1]) + Last(rows)
  }

  lemma FlattenAppendRow(rows: seq<seq<Button>>, row: seq<Button>)
    ensures Flatten(rows + [row]) == Flatten(rows) + row
  {
    assert (rows + [row])[..|rows|] == rows;
  }

  /** Every row but the last is full (two buttons); the last holds at most two. */
  predicate Packed(rows: seq<seq<Button>>) {
    && |rows| >= 1
    && (forall k :: 0 <= k < |rows| - 1 ==> |rows[k]| == 2)
    && |Last(rows)| <= 2
  }

  /** Adds a button to the last row, opening a new row when it is full. */
  function PackButton(rows: seq<seq<Button>>, b: Button): (r: seq<seq<Button>>)
    requires Packed(rows)
    ensures Packed(r) && 0 < |Last(r)|
    ensures Flatten(r) == Flatten(rows) + [b]
  {
    var open := if |Last(rows)| == 2 then rows + [[]] else rows;
    FlattenAppendRow(rows, []);
    var front := open[..|open| - 1];
    assert open == front + [Last(open)];
    FlattenAppendRow(front, Last(open));
    FlattenAppendRow(front, Last(open) + [b]);
    front + [Last(open) + [b]]
  }

  /** QReadWrite.parse_game_folders_markup: the folder buttons packed into rows
      of two, only the last row possibly shorter. */
  method GameFoldersMarkup(dirs: seq<string>) returns (rows: seq<seq<Button>>)
    ensures |rows| >= 1
    ensures Flatten(rows) == FolderButtons(dirs)
    ensures forall i :: 0 <= i < |rows| - 1 ==> |rows[i]| == 2
    ensures 0 < |Last(rows)| <= 2 || (rows == [[]] && FolderButtons(dirs) == [])
  {
    rows := [[]];
    var i := 0;
    while i < |dirs|
      invariant 0 <= i <= |dirs|
      invariant Packed(rows)
      invariant Flatten(rows) == FolderButtons(dirs[..i])
      invariant 0 < |Last(rows)| || (rows == [[]] && FolderButtons(dirs[..i]) == [])
    {
      var dir := dirs[i];
      FolderButtonsStep(dirs, i);
      if !StartsWith(dir, ".") {
        rows := PackButton(rows, FolderButton(dir));
      }
      i := i + 1;
    }
    assert dirs[..i] == dirs;
  }

  lemma FolderButtonsStep(dirs: seq<string>, i: nat)
    requires i < |dirs|
    ensures FolderButtons(dirs[..i + 1]) ==
              FolderButtons(dirs[..i]) + (if StartsWith(dirs[i], ".") then [] else [FolderButton(dirs[i])])
  {
    assert dirs[..i + 1][..i] == dirs[..i];
  }

  /** How a folder button's data is read back, as written in the source:
      the last '-'-separated field. */
  function FolderFromButtonAsWritten(data: string): string {
    Last(SplitSep(data, "-"))
  }

  /** A folder whose name holds '-' comes back as only the part after its
      last '-'. */
  lemma FolderButtonAsWrittenTruncates(head: string, tail: string)
    requires '-' !in tail
    ensures FolderFromButtonAsWritten(FolderButton(head + "-" + tail).data) == tail
  {
    var x := "puzzname-" + head;
    assert FolderButton(head + "-" + tail).data == x + ['-'] + tail;
    LastPieceAfterSep(x, '-', tail);
  }

  /** The folder "my-game" is read back as "game". */
  lemma FolderButtonAsWrittenExample()
    ensures FolderFromButtonAsWritten(FolderButton("my-game").data) == "game"
  {
    assert "my-game" == "my" + "-" + "game";
    FolderButtonAsWrittenTruncates("my", "game");
  }

  /** Button data read back as everything after the first '-', the reading
      the level buttons use. */
  function FolderFromButton(data: string): string {
    DropFirstField(data, "-")
  }

  /** Every folder, whatever characters its name holds, is read back intact. */
  lemma FolderButtonRoundTrip(dir: string)
    ensures FolderFromButton(FolderButton(dir).data) == dir
  {
    assert "puzzname-" + dir == "puzzname" + "-" + dir;
    DropFirstFieldAfterHead("puzzname", "-", dir);
  }
}
