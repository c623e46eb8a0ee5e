/** The kinds of message a puzzle is made of, in the order the message
    classifier tries them. */
module QTypes {

  datatype FileType =
    | Text | Location | Contact
    | Photo | Sticker | Audio | Voice | Video | VideoNote | Document | Animation

  /** Position of a kind in the declaration (and classification) order. */
  function Rank(t: FileType): nat {
    match t
    case Text => 0
    case Location => 1
    case Contact => 2
    case Photo => 3
    case Sticker => 4
    case Audio => 5
    case Voice => 6
    case Video => 7
    case VideoNote => 8
    case Document => 9
    case Animation => 10
  }

  /** Media kinds are stored by file id and may be downloaded next to the puzzle. */
  predicate IsMedia(t: FileType) {
    Rank(t) >= Rank(Photo)
  }
}
