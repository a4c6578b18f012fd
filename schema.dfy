/** The rows of the four tables the store keeps: clubs, books, activities
    and logs. Every row carries the guild (chat server) it belongs to.
    Points and amounts are SQL REAL, modelled as exact reals. */
module Schema {
  import opened Calendar

  type GuildId = int
  type UserId = int

  datatype Club = Club(guild: GuildId, code: string, name: string)

  datatype Book = Book(
    guild: GuildId, name: string, code: string, clubCode: string,
    points: real, createdAt: Stamp)

  /** A user's completion of a book, with the points awarded for it. */
  datatype Activity = Activity(
    guild: GuildId, user: UserId, clubCode: string, bookCode: string, points: real)

  /** A media-consumption ledger entry; `mediaType` is the stored text of the
      media type ('BOOK', 'MANGA', ...). */
  datatype Log = Log(
    guild: GuildId, user: UserId, mediaType: string, amount: real,
    note: string, createdAt: Stamp)

  /** A row of the activities-books join: the activity and the book it names. */
  datatype JoinedRow = JoinedRow(activity: Activity, book: Book)
}
