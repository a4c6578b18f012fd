/** The read-only commands of book_bot.py (books, users, user, score, book):
    each ignores the bot's own messages, reads rows from the store, groups
    them the way the handler's defaultdict loop does, and shows the result.
    A view is the data an embed displays, not its text. */
module Views {
  import opened Util
  import opened Calendar
  import opened Schema
  import opened Grouping
  import opened Queries
  import opened Db
  import opened BookBot

  /** `books`: one field per (book name, book code, book date) with its reader count. */
  datatype BookField = BookField(name: string, code: string, createdAt: Stamp, readers: nat)

  /** `users`: a user, their (book code, points) finishes in row order, and the sum of those points. */
  datatype UserBooks = UserBooks(user: UserId, books: seq<(string, real)>, total: real)

  /** `user`: what a finish shows next to its book code. */
  datatype Label = Partial(points: real) | Extra(points: real) | Base(bookPoints: real)

  datatype BookLine = BookLine(code: string, shown: Label)

  datatype View =
    | BooksView(title: string, fields: seq<BookField>)
    | UsersView(title: string, entries: seq<UserBooks>)
    | UserView(user: UserId, books: nat, points: real, clubs: seq<(string, seq<BookLine>)>)
    | ScoreView(title: string, rows: seq<UserPoints>)
    | BookView(name: string, club: string, points: real, createdAt: Stamp, readers: nat, users: seq<UserId>)

  datatype Notice = UnknownBook(code: string) | NoActivities(user: UserId)

  /** Nothing (the author is the bot), an exception that ends the handler, a
      message, or a view. */
  datatype Answer = Ignored | Crashed | Told(notice: Notice) | Shown(view: View)

  // ---- books ---------------------------------------------------------------------

  /** The readers_by_book key of a joined row. */
  function BookKey(row: JoinedRow): (string, string, Stamp)
  {
    (row.book.name, row.activity.bookCode, row.book.createdAt)
  }

  function Reader(row: JoinedRow): UserId { row.activity.user }

  function KeyOf(f: BookField): (string, string, Stamp) { (f.name, f.code, f.createdAt) }

  function Fields(groups: seq<((string, string, Stamp), seq<UserId>)>): (r: seq<BookField>)
    ensures |r| == |groups|
    ensures forall i :: 0 <= i < |r| ==> KeyOf(r[i]) == groups[i].0 && r[i].readers == |groups[i].1|
  {
    seq(|groups|, i requires 0 <= i < |groups| => BookField(groups[i].0.0, groups[i].0.1, groups[i].0.2, |groups[i].1|))
  }

  /** The fields of the joined rows: one per book key that occurs, with the
      number of rows under it. */
  lemma FieldsOfRows(rows: seq<JoinedRow>, groups: seq<((string, string, Stamp), seq<UserId>)>, fields: seq<BookField>)
    requires groups == GroupBy(KeyedValues(rows, BookKey, Reader))
    requires fields == Fields(groups)
    ensures forall i, j :: 0 <= i < j < |fields| ==> KeyOf(fields[i]) != KeyOf(fields[j])
    ensures (set i | 0 <= i < |fields| :: KeyOf(fields[i])) == set row | row in rows :: BookKey(row)
    ensures forall i :: 0 <= i < |fields| ==> fields[i].readers == KeyCount(rows, BookKey, KeyOf(fields[i])) > 0
  {
    GroupedRows(rows, BookKey, Reader, groups);
    FieldKeys(groups, fields);
  }

  /** Key `b` belongs to a book no newer than key `a`'s. */
  predicate NewerKey(a: (string, string, Stamp), b: (string, string, Stamp))
  {
    AtOrBefore(b.2, a.2)
  }

  /** Rows that come newest book first give fields newest book first: the
      dict keeps each book where its first row put it. */
  lemma FieldsNewestFirst(rows: seq<JoinedRow>, groups: seq<((string, string, Stamp), seq<UserId>)>, fields: seq<BookField>)
    requires forall i, j :: 0 <= i < j < |rows| ==> AtOrBefore(rows[j].book.createdAt, rows[i].book.createdAt)
    requires groups == GroupBy(KeyedValues(rows, BookKey, Reader))
    requires fields == Fields(groups)
    ensures forall i, j :: 0 <= i < j < |fields| ==> AtOrBefore(fields[j].createdAt, fields[i].createdAt)
  {
    var pairs := KeyedValues(rows, BookKey, Reader);
    KeyedValuesAt(rows, BookKey, Reader);
    assert forall i, j :: 0 <= i < j < |pairs| ==> NewerKey(pairs[i].0, pairs[j].0);
    GroupByOrdered(pairs, NewerKey);
  }

  /** The fields carry the groups' keys. */
  lemma FieldKeys(groups: seq<((string, string, Stamp), seq<UserId>)>, fields: seq<BookField>)
    requires fields == Fields(groups)
    ensures (set i | 0 <= i < |fields| :: KeyOf(fields[i])) == Keys(groups)
  {
    forall k ensures k in (set i | 0 <= i < |fields| :: KeyOf(fields[i])) <==> k in Keys(groups) {
      if k in Keys(groups) {
        var i :| 0 <= i < |groups| && groups[i].0 == k;
        assert KeyOf(fields[i]) == k;
      }
    }
  }

  /** books: the club code is upper-cased; an unknown club crashes (get_club's
      IndexError); otherwise the club's joined activities are grouped by book,
      one field per book with readers, each with its reader count, newest
      book first. */
  method Books(store: Store, fromBot: bool, g: GuildId, clubCode: string) returns (ans: Answer)
    ensures fromBot ==> ans == Ignored
    ensures !fromBot && FindClub(store.clubs, g, Upper(clubCode)).None? ==> ans == Crashed
    ensures !fromBot && FindClub(store.clubs, g, Upper(clubCode)).Some? ==>
      && ans.Shown? && ans.view.BooksView?
      && ans.view.title == FindClub(store.clubs, g, Upper(clubCode)).value.name
      && var rows := ClubActivities(store.activities, store.books, g, Upper(clubCode));
         var fields := ans.view.fields;
         && (forall i, j :: 0 <= i < j < |fields| ==> KeyOf(fields[i]) != KeyOf(fields[j]))
         && (set i | 0 <= i < |fields| :: KeyOf(fields[i])) == (set row | row in rows :: BookKey(row))
         && (forall i :: 0 <= i < |fields| ==> fields[i].readers == KeyCount(rows, BookKey, KeyOf(fields[i])) > 0)
         && (forall i, j :: 0 <= i < j < |fields| ==> AtOrBefore(fields[j].createdAt, fields[i].createdAt))
  {
    if fromBot {
      return Ignored;
    }
    var cc := Upper(clubCode);
    var club := FindClub(store.clubs, g, cc);
    if club.None? {
      return Crashed;
    }
    var rows := ClubActivities(store.activities, store.books, g, cc);
    var groups := GroupItems(KeyedValues(rows, BookKey, Reader));
    var fields := Fields(groups);
    FieldsOfRows(rows, groups, fields);
    FieldsNewestFirst(rows, groups, fields);
    ans := Shown(BooksView(club.value.name, fields));
  }

  // ---- users ---------------------------------------------------------------------

  function CodeAndPoints(row: JoinedRow): (string, real) { (row.activity.bookCode, row.activity.points) }

  function RowPoints(row: JoinedRow): real { row.activity.points }

  /** sum_book_points: the points of a book list, added from the left. */
  function BookPointsSum(books: seq<(string, real)>): real
  {
    if books == [] then 0.0 else BookPointsSum(books[..|books| - 1]) + books[|books| - 1].1
  }

  /** A user's listed points add up to their reference total over the rows. */
  lemma {:induction false} BookPointsSumIsTotal(rows: seq<JoinedRow>, u: UserId)
    ensures BookPointsSum(Select(KeyedValues(rows, Reader, CodeAndPoints), u)) == KeyTotal(rows, Reader, RowPoints, u)
  {
    if rows != [] {
      var front := rows[..|rows| - 1];
      var last := rows[|rows| - 1];
      var before := KeyedValues(front, Reader, CodeAndPoints);
      var p := (Reader(last), CodeAndPoints(last));
      BookPointsSumIsTotal(front, u);
      assert KeyedValues(rows, Reader, CodeAndPoints) == before + [p];
      assert KeyTotal(rows, Reader, RowPoints, u) ==
        KeyTotal(front, Reader, RowPoints, u) + (if Reader(last) == u then RowPoints(last) else 0.0);
      BookPointsStep(before, p, u, KeyTotal(front, Reader, RowPoints, u));
    }
  }

  /** One more pair adds its points to its own user's sum and to no other. */
  lemma BookPointsStep(before: seq<(UserId, (string, real))>, p: (UserId, (string, real)), u: UserId, total: real)
    requires BookPointsSum(Select(before, u)) == total
    ensures BookPointsSum(Select(before + [p], u)) == total + (if p.0 == u then p.1.1 else 0.0)
  {
    SelectSnoc(before, p, u);
    var sel := Select(before, u);
    if p.0 == u {
      assert (sel + [p.1])[..|sel|] == sel;
    } else {
      assert sel + [] == sel;
    }
  }

  predicate MoreTotal(a: UserBooks, b: UserBooks) { a.total >= b.total }

  lemma MoreTotalPreorder()
    ensures TotalPreorder(MoreTotal)
  {
  }

  function EntryUser(e: UserBooks): UserId { e.user }

  function Entries(groups: seq<(UserId, seq<(string, real)>)>): (r: seq<UserBooks>)
    ensures |r| == |groups|
    ensures forall i :: 0 <= i < |r| ==> r[i] == UserBooks(groups[i].0, groups[i].1, BookPointsSum(groups[i].1))
  {
    seq(|groups|, i requires 0 <= i < |groups| => UserBooks(groups[i].0, groups[i].1, BookPointsSum(groups[i].1)))
  }

  function EntryUsers(es: seq<UserBooks>): set<UserId>
  {
    set i | 0 <= i < |es| :: es[i].user
  }

  /** Before sorting: one entry per user of the rows, listing that user's
      finishes and their reference total. */
  lemma EntriesOfRows(rows: seq<JoinedRow>, groups: seq<(UserId, seq<(string, real)>)>, es: seq<UserBooks>)
    requires groups == GroupBy(KeyedValues(rows, Reader, CodeAndPoints))
    requires es == Entries(groups)
    ensures DistinctBy(es, EntryUser)
    ensures EntryUsers(es) == set row | row in rows :: Reader(row)
    ensures forall e :: e in es ==> e.books == Select(KeyedValues(rows, Reader, CodeAndPoints), e.user)
    ensures forall e :: e in es ==> e.total == BookPointsSum(e.books) == KeyTotal(rows, Reader, RowPoints, e.user)
  {
    GroupedRows(rows, Reader, CodeAndPoints, groups);
    EntryKeys(groups, es);
    forall e | e in es
      ensures e.total == KeyTotal(rows, Reader, RowPoints, e.user)
    {
      BookPointsSumIsTotal(rows, e.user);
    }
  }

  /** The entries carry the groups' users. */
  lemma EntryKeys(groups: seq<(UserId, seq<(string, real)>)>, es: seq<UserBooks>)
    requires es == Entries(groups)
    ensures EntryUsers(es) == Keys(groups)
  {
    forall k ensures k in EntryUsers(es) <==> k in Keys(groups) {
      if k in Keys(groups) {
        var i :| 0 <= i < |groups| && groups[i].0 == k;
        assert es[i].user == k;
      }
    }
  }

  /** Sorting by total keeps the entries and orders them, highest total first. */
  lemma SortedEntries(es: seq<UserBooks>, sorted: seq<UserBooks>)
    requires DistinctBy(es, EntryUser)
    requires sorted == Sort(es, MoreTotal)
    ensures DistinctBy(sorted, EntryUser)
    ensures EntryUsers(sorted) == EntryUsers(es)
    ensures forall e :: e in sorted <==> e in es
    ensures forall i, j :: 0 <= i < j < |sorted| ==> sorted[i].total >= sorted[j].total
  {
    SortDistinct(es, EntryUser, MoreTotal);
    MoreTotalPreorder();
    SortSorted(es, MoreTotal);
    forall e ensures e in sorted <==> e in es {
      SortMember(es, MoreTotal, e);
    }
    forall v ensures v in EntryUsers(sorted) <==> v in EntryUsers(es) {
      if v in EntryUsers(sorted) {
        var i :| 0 <= i < |sorted| && sorted[i].user == v;
        assert sorted[i] in sorted;
      }
      if v in EntryUsers(es) {
        var i :| 0 <= i < |es| && es[i].user == v;
        assert es[i] in es;
      }
    }
  }

  /** users: the club code is used as given (not upper-cased); an unknown club
      crashes (get_club's IndexError); otherwise one entry per user with a
      finish in the club, listing those finishes and their sum, highest sum
      first. */
  method Users(store: Store, fromBot: bool, g: GuildId, clubCode: string) returns (ans: Answer)
    ensures fromBot ==> ans == Ignored
    ensures !fromBot && FindClub(store.clubs, g, clubCode).None? ==> ans == Crashed
    ensures !fromBot && FindClub(store.clubs, g, clubCode).Some? ==>
      && ans.Shown? && ans.view.UsersView?
      && ans.view.title == FindClub(store.clubs, g, clubCode).value.name
      && var rows := ClubActivities(store.activities, store.books, g, clubCode);
         var es := ans.view.entries;
         && DistinctBy(es, EntryUser)
         && EntryUsers(es) == (set row | row in rows :: Reader(row))
         && (forall e :: e in es ==> e.books == Select(KeyedValues(rows, Reader, CodeAndPoints), e.user))
         && (forall e :: e in es ==> e.total == BookPointsSum(e.books) == KeyTotal(rows, Reader, RowPoints, e.user))
         && (forall i, j :: 0 <= i < j < |es| ==> es[i].total >= es[j].total)
  {
    if fromBot {
      return Ignored;
    }
    var club := FindClub(store.clubs, g, clubCode);
    if club.None? {
      return Crashed;
    }
    var rows := ClubActivities(store.activities, store.books, g, clubCode);
    var groups := GroupItems(KeyedValues(rows, Reader, CodeAndPoints));
    var es := Entries(groups);
    EntriesOfRows(rows, groups, es);
    var sorted := Sort(es, MoreTotal);
    SortedEntries(es, sorted);
    ans := Shown(UsersView(club.value.name, sorted));
  }

  // ---- user ----------------------------------------------------------------------

  /** The points a label displays. */
  function LabelPoints(l: Label): real
  {
    match l
    case Partial(p) => p
    case Extra(p) => p
    case Base(p) => p
  }

  /** A finish below its book's points is partial, one above is extra, and
      otherwise the book's points are shown; in every case the number shown
      is the finish's points. */
  function LabelOf(points: real, bookPoints: real): (l: Label)
    ensures l.Partial? <==> points < bookPoints
    ensures l.Extra? <==> points > bookPoints
    ensures l.Base? <==> points == bookPoints
    ensures LabelPoints(l) == points
  {
    if points < bookPoints then Partial(points)
    else if points > bookPoints then Extra(points)
    else Base(bookPoints)
  }

  function ClubOf(row: JoinedRow): string { row.activity.clubCode }

  function LineOf(row: JoinedRow): BookLine
  {
    BookLine(row.activity.bookCode, LabelOf(row.activity.points, row.book.points))
  }

  /** `sum(a.points for a in activities)`, added from the left. */
  function TotalPoints(rows: seq<JoinedRow>): real
  {
    if rows == [] then 0.0 else TotalPoints(rows[..|rows| - 1]) + rows[|rows| - 1].activity.points
  }

  /** When every row is one user's, their total is the sum over all rows. */
  lemma {:induction false} TotalPointsOfOneUser(rows: seq<JoinedRow>, u: UserId)
    requires forall row :: row in rows ==> row.activity.user == u
    ensures TotalPoints(rows) == KeyTotal(rows, Reader, RowPoints, u)
  {
    if rows != [] {
      var front := rows[..|rows| - 1];
      forall row | row in front ensures row.activity.user == u {
        assert row in rows;
      }
      TotalPointsOfOneUser(front, u);
      assert rows[|rows| - 1] in rows;
    }
  }

  /** user: no activity is reported; otherwise the number of finishes, their
      points, and per club (in order of first appearance) one line per finish
      of that club, in row order. Every finish is listed exactly once. */
  method UserInfo(store: Store, fromBot: bool, g: GuildId, u: UserId) returns (ans: Answer)
    ensures fromBot ==> ans == Ignored
    ensures !fromBot && UserActivities(store.activities, store.books, g, u) == [] ==> ans == Told(NoActivities(u))
    ensures !fromBot && UserActivities(store.activities, store.books, g, u) != [] ==>
      && ans.Shown? && ans.view.UserView?
      && var rows := UserActivities(store.activities, store.books, g, u);
         var clubs := ans.view.clubs;
         && ans.view.user == u
         && ans.view.books == |rows|
         && ans.view.points == KeyTotal(rows, Reader, RowPoints, u)
         && (forall i, j :: 0 <= i < j < |clubs| ==> clubs[i].0 != clubs[j].0)
         && Keys(clubs) == (set row | row in rows :: ClubOf(row))
         && (forall i :: 0 <= i < |clubs| ==> clubs[i].1 == Select(KeyedValues(rows, ClubOf, LineOf), clubs[i].0))
         && GroupedCount(clubs) == |rows|
  {
    if fromBot {
      return Ignored;
    }
    var rows := UserActivities(store.activities, store.books, g, u);
    if rows == [] {
      return Told(NoActivities(u));
    }
    var clubs := GroupItems(KeyedValues(rows, ClubOf, LineOf));
    ClubsOfRows(rows, u, clubs);
    ans := Shown(UserView(u, |rows|, TotalPoints(rows), clubs));
  }

  /** One user's rows grouped by club: one group per club that occurs, each
      listing that club's lines in row order, every row in exactly one group;
      and the rows' points add up to the user's reference total. */
  lemma ClubsOfRows(rows: seq<JoinedRow>, u: UserId, clubs: seq<(string, seq<BookLine>)>)
    requires forall row :: row in rows ==> row.activity.user == u
    requires clubs == GroupBy(KeyedValues(rows, ClubOf, LineOf))
    ensures TotalPoints(rows) == KeyTotal(rows, Reader, RowPoints, u)
    ensures forall i, j :: 0 <= i < j < |clubs| ==> clubs[i].0 != clubs[j].0
    ensures Keys(clubs) == (set row | row in rows :: ClubOf(row))
    ensures forall i :: 0 <= i < |clubs| ==> clubs[i].1 == Select(KeyedValues(rows, ClubOf, LineOf), clubs[i].0)
    ensures GroupedCount(clubs) == |rows|
  {
    GroupedRows(rows, ClubOf, LineOf, clubs);
    GroupByCount(KeyedValues(rows, ClubOf, LineOf));
    KeyedValuesLength(rows, ClubOf, LineOf);
    TotalPointsOfOneUser(rows, u);
  }

  // ---- score ---------------------------------------------------------------------

  /** score: without a club code (or with an empty one), the guild's name and
      the all-clubs scoreboard; with one, used as given, the club's name (an
      unknown club crashes) and that club's scoreboard; at most twenty rows. */
  function Score(clubs: seq<Club>, acts: seq<Activity>, fromBot: bool, g: GuildId, guildName: string,
                 code: Option<string>): (ans: Answer)
    ensures fromBot ==> ans == Ignored
    ensures !fromBot && Given(code) && FindClub(clubs, g, code.value).None? ==> ans == Crashed
    ensures !fromBot && !(Given(code) && FindClub(clubs, g, code.value).None?) ==>
      && ans.Shown? && ans.view.ScoreView?
      && ans.view.title == (if Given(code) then FindClub(clubs, g, code.value).value.name else guildName)
      && ans.view.rows == Take(Scoreboard(acts, g, code), 20)
  {
    if fromBot then Ignored
    else if Given(code) then
      match FindClub(clubs, g, code.value)
      case None => Crashed
      case Some(club) => Shown(ScoreView(club.name, Take(Scoreboard(acts, g, code), 20)))
    else Shown(ScoreView(guildName, Take(Scoreboard(acts, g, code), 20)))
  }

  /** The score view shows at most twenty users, highest first, each with the
      sum of their selected points; with at most twenty such users it shows
      all of them. */
  lemma ScoreRowsShown(acts: seq<Activity>, g: GuildId, code: Option<string>, rows: seq<UserPoints>)
    requires rows == Take(Scoreboard(acts, g, code), 20)
    ensures |rows| <= 20
    ensures forall i, j :: 0 <= i < j < |rows| ==> rows[i].user != rows[j].user
    ensures forall i, j :: 0 <= i < j < |rows| ==> rows[i].points >= rows[j].points
    ensures forall i :: 0 <= i < |rows| ==>
      rows[i].points == KeyTotal(ScoreRows(acts, g, code), ActivityUser, ActivityPoints, rows[i].user)
    ensures UserSet(rows) <= ActivityUsers(ScoreRows(acts, g, code))
    ensures |ActivityUsers(ScoreRows(acts, g, code))| <= 20 ==> UserSet(rows) == ActivityUsers(ScoreRows(acts, g, code))
  {
    TakeBoard(ScoreRows(acts, g, code), Scoreboard(acts, g, code), 20, rows);
  }

  /** The leading `n` rows of a scoreboard of `scored` keep its order, its
      distinct users and its sums, and are all of it when it has at most `n` users. */
  lemma TakeBoard(scored: seq<Activity>, board: seq<UserPoints>, n: nat, rows: seq<UserPoints>)
    requires forall i, j :: 0 <= i < j < |board| ==> board[i].user != board[j].user
    requires UserSet(board) == ActivityUsers(scored)
    requires forall j :: 0 <= j < |board| ==> board[j].points == KeyTotal(scored, ActivityUser, ActivityPoints, board[j].user)
    requires forall i, j :: 0 <= i < j < |board| ==> board[i].points >= board[j].points
    requires rows == Take(board, n)
    ensures |rows| <= n
    ensures forall i, j :: 0 <= i < j < |rows| ==> rows[i].user != rows[j].user
    ensures forall i, j :: 0 <= i < j < |rows| ==> rows[i].points >= rows[j].points
    ensures forall i :: 0 <= i < |rows| ==> rows[i].points == KeyTotal(scored, ActivityUser, ActivityPoints, rows[i].user)
    ensures UserSet(rows) <= ActivityUsers(scored)
    ensures |ActivityUsers(scored)| <= n ==> UserSet(rows) == ActivityUsers(scored)
  {
    TakeUsers(board, n, rows);
    if |ActivityUsers(scored)| <= n {
      UserSetSize(board);
      assert rows == board;
    }
  }

  /** Leading rows of a scoreboard name only users the scoreboard names. */
  lemma TakeUsers(board: seq<UserPoints>, n: nat, rows: seq<UserPoints>)
    requires rows == Take(board, n)
    ensures UserSet(rows) <= UserSet(board)
  {
    forall v | v in UserSet(rows) ensures v in UserSet(board) {
      var j :| 0 <= j < |rows| && rows[j].user == v;
      assert board[j].user == v;
    }
  }

  // ---- book ----------------------------------------------------------------------

  /** book: the code is upper-cased; a code no book has (in any guild) is
      reported; otherwise the book's name, club, points and date and the users
      with a finish of that code in this guild, one per finish. */
  function BookInfo(books: seq<Book>, acts: seq<Activity>, fromBot: bool, g: GuildId, code: string): (ans: Answer)
    ensures fromBot ==> ans == Ignored
    ensures !fromBot && FindBook(books, g, Upper(code)).None? ==> ans == Told(UnknownBook(Upper(code)))
    ensures !fromBot && FindBook(books, g, Upper(code)).Some? ==>
      && ans.Shown? && ans.view.BookView?
      && var b := FindBook(books, g, Upper(code)).value;
         && b in books && b.code == Upper(code)
         && ans.view.name == b.name && ans.view.club == b.clubCode
         && ans.view.points == b.points && ans.view.createdAt == b.createdAt
         && ans.view.readers == |ans.view.users| == |BookActivities(acts, g, Upper(code))|
         && (forall i :: 0 <= i < |ans.view.users| ==> ans.view.users[i] == BookActivities(acts, g, Upper(code))[i].user)
         && (forall v :: v in ans.view.users <==>
               exists a :: a in acts && a.guild == g && a.bookCode == Upper(code) && a.user == v)
  {
    if fromBot then Ignored
    else
      var c := Upper(code);
      match FindBook(books, g, c)
      case None => Told(UnknownBook(c))
      case Some(b) =>
        var rows := BookActivities(acts, g, c);
        var users := seq(|rows|, i requires 0 <= i < |rows| => rows[i].user);
        BookUsers(acts, g, c, rows, users);
        Shown(BookView(b.name, b.clubCode, b.points, b.createdAt, |rows|, users))
  }

  lemma BookUsers(acts: seq<Activity>, g: GuildId, c: string, rows: seq<Activity>, users: seq<UserId>)
    requires rows == BookActivities(acts, g, c)
    requires |users| == |rows| && forall i :: 0 <= i < |rows| ==> users[i] == rows[i].user
    ensures forall v :: v in users <==> exists a :: a in acts && a.guild == g && a.bookCode == c && a.user == v
  {
    forall v ensures v in users <==> exists a :: a in acts && a.guild == g && a.bookCode == c && a.user == v {
      if v in users {
        var i :| 0 <= i < |users| && users[i] == v;
        assert rows[i] in multiset(rows);
      }
      if exists a :: a in acts && a.guild == g && a.bookCode == c && a.user == v {
        var a :| a in acts && a.guild == g && a.bookCode == c && a.user == v;
        assert a in multiset(acts);
        assert a in multiset(rows);
        var i :| 0 <= i < |rows| && rows[i] == a;
        assert users[i] == v;
      }
    }
  }

  predicate DifferentFinish(a: Activity, b: Activity)
  {
    !(a.guild == b.guild && a.user == b.user && a.bookCode == b.bookCode)
  }

  /** While each user finishes a book once, the book view's readers are
      distinct users, so its reader count counts users. */
  lemma BookReadersDistinct(acts: seq<Activity>, g: GuildId, code: string, users: seq<UserId>)
    requires OneFinishEach(acts)
    requires var rows := BookActivities(acts, g, code);
      |users| == |rows| && forall i :: 0 <= i < |rows| ==> users[i] == rows[i].user
    ensures forall i, j :: 0 <= i < j < |users| ==> users[i] != users[j]
  {
    var rows := BookActivities(acts, g, code);
    var keep := (a: Activity) => a.guild == g && a.bookCode == code;
    assert rows == Filter(acts, keep);
    assert forall i, j :: 0 <= i < j < |acts| ==> DifferentFinish(acts[i], acts[j]);
    FilterPairwise(acts, keep, DifferentFinish);
    forall i | 0 <= i < |rows| ensures rows[i].guild == g && rows[i].bookCode == code {
      assert rows[i] in multiset(rows);
    }
  }
}
