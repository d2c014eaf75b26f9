/** The shared record types of the application. */
module AppTypes {

  /** The authenticated user a request acts for. */
  datatype UserData = UserData(id: int, username: string, email: string)

  /** One row of the digest query: a note received by a user, with the user's contact and the note's type name. */
  datatype UserNotesSummary = UserNotesSummary(userId: int, noteId: int, email: string, username: string, typeName: string)

  /** How many notes of one type a user received. */
  datatype Stat = Stat(noteType: string, count: nat)

  /** A user's digest: contact details and one `Stat` per note type. */
  datatype UserStat = UserStat(email: string, userId: int, username: string, stats: seq<Stat>)
}
