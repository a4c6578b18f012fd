/** The admin commands of book_bot.py (new_club, new_book, delete_book,
    finished): each checks the author's admin role, normalises its codes,
    looks the rows up, and then either answers or changes the store and
    re-renders the boards the change touches. */
module Commands {
  import opened Util
  import opened Calendar
  import opened Schema
  import opened Queries
  import opened Db
  import opened BookBot

  /** The fixed messages a command sends, with the values they mention. */
  datatype Msg =
    | ClubExists(clubName: string)
    | ClubCreated(name: string, code: string)
    | BookExists(code: string)
    | BookAdded(name: string, code: string, points: real)
    | NoSuchBook
    | BookDeleted(code: string)
    | UnknownBook(code: string)
    | AlreadyFinished(user: UserId, code: string)
    | FinishedBook(user: UserId, code: string)

  /** What a command answers: nothing, an exception that ends it, or a message. */
  datatype Reply = Silent | Crash | Say(msg: Msg)

  /** A command's reply and the boards it re-renders afterwards. */
  datatype Outcome = Outcome(reply: Reply, boards: seq<BoardView>)

  /** Appending a row whose code no row has keeps the codes unique. */
  lemma AppendFreshBook(books: seq<Book>, b: Book)
    requires BookCodesUnique(books)
    requires forall x :: x in books ==> x.code != b.code
    ensures BookCodesUnique(books + [b])
  {
    var r := books + [b];
    forall i, j | 0 <= i < j < |r| ensures r[i].code != r[j].code {
      if j == |books| {
        assert r[i] == books[i] && books[i] in books;
      } else {
        assert r[i] == books[i] && r[j] == books[j];
      }
    }
  }

  lemma AppendFreshClub(clubs: seq<Club>, c: Club)
    requires ClubCodesUnique(clubs)
    requires forall x :: x in clubs ==> x.code != c.code
    ensures ClubCodesUnique(clubs + [c])
  {
    var r := clubs + [c];
    forall i, j | 0 <= i < j < |r| ensures r[i].code != r[j].code {
      if j == |clubs| {
        assert r[i] == clubs[i] && clubs[i] in clubs;
      } else {
        assert r[i] == clubs[i] && r[j] == clubs[j];
      }
    }
  }

  lemma AppendFreshActivity(acts: seq<Activity>, a: Activity)
    requires OneFinishEach(acts)
    requires forall x :: x in acts ==> !(x.guild == a.guild && x.user == a.user && x.bookCode == a.bookCode)
    ensures OneFinishEach(acts + [a])
  {
    var r := acts + [a];
    forall i, j | 0 <= i < j < |r|
      ensures !(r[i].guild == r[j].guild && r[i].user == r[j].user && r[i].bookCode == r[j].bookCode)
    {
      if j == |acts| {
        assert r[i] == acts[i] && acts[i] in acts;
      } else {
        assert r[i] == acts[i] && r[j] == acts[j];
      }
    }
  }

  predicate DifferentCodes(a: Book, b: Book) { a.code != b.code }

  /** Deleting books keeps the remaining codes unique. */
  lemma DeleteKeepsCodesUnique(books: seq<Book>, g: GuildId, code: string)
    requires BookCodesUnique(books)
    ensures BookCodesUnique(Filter(books, NotBook(g, code)))
  {
    assert forall i, j :: 0 <= i < j < |books| ==> DifferentCodes(books[i], books[j]);
    FilterPairwise(books, NotBook(g, code), DifferentCodes);
    var r := Filter(books, NotBook(g, code));
    assert forall i, j :: 0 <= i < j < |r| ==> DifferentCodes(r[i], r[j]);
  }

  // ---- new_club --------------------------------------------------------------

  /** new_club as written: get_club raises IndexError for an unknown code, so
      the command crashes before it could insert; for a known code it names
      the existing club. Either way the store is left alone. */
  method NewClub(store: Store, isAdmin: bool, g: GuildId, name: string, code: string) returns (reply: Reply)
    ensures !isAdmin ==> reply == Silent
    ensures isAdmin ==> (reply == Crash <==> forall c :: c in store.clubs ==> c.code != code)
    ensures isAdmin && reply != Crash ==>
      reply.Say? && reply.msg.ClubExists? &&
      exists c :: c in store.clubs && c.code == code && c.name == reply.msg.clubName
  {
    if !isAdmin {
      return Silent;
    }
    var club := FindClub(store.clubs, g, code);
    if club.None? {
      return Crash;
    }
    reply := Say(ClubExists(club.value.name));
  }

  /** new_club as its branches intend: an unknown code gets a new club, a
      known one is reported; afterwards a club with the code exists. */
  method NewClubAsIntended(store: Store, isAdmin: bool, g: GuildId, name: string, code: string) returns (reply: Reply)
    modifies store
    ensures !isAdmin ==> reply == Silent && unchanged(store)
    ensures isAdmin && old(FindClub(store.clubs, g, code)).Some? ==>
      reply == Say(ClubExists(old(FindClub(store.clubs, g, code)).value.name)) && unchanged(store)
    ensures isAdmin && old(FindClub(store.clubs, g, code)).None? ==>
      && store.clubs == old(store.clubs) + [Club(g, code, name)]
      && store.books == old(store.books) && store.activities == old(store.activities) && store.logs == old(store.logs)
      && reply == Say(ClubCreated(name, code))
    ensures isAdmin ==> exists c :: c in store.clubs && c.code == code
    ensures ClubCodesUnique(old(store.clubs)) ==> ClubCodesUnique(store.clubs)
  {
    if !isAdmin {
      return Silent;
    }
    var club := FindClub(store.clubs, g, code);
    if club.Some? {
      return Say(ClubExists(club.value.name));
    }
    if ClubCodesUnique(store.clubs) {
      AppendFreshClub(store.clubs, Club(g, code, name));
    }
    store.NewClub(g, name, code);
    assert store.clubs[|store.clubs| - 1] == Club(g, code, name);
    reply := Say(ClubCreated(name, code));
  }

  // ---- new_book --------------------------------------------------------------

  /** The `points` argument: 2.0 when it is left out, otherwise as given. */
  function GivenPoints(points: Option<real>): (r: real)
    ensures points.None? ==> r == 2.0
    ensures points.Some? ==> r == points.value
  {
    if points.Some? then points.value else 2.0
  }

  /** The `created_at` argument: the start of the day given, or of today when
      none (or an empty one) is given. */
  function GivenDay(createdAt: Option<Stamp>, today: Stamp): (r: Stamp)
    ensures var day := if createdAt.Some? then createdAt.value else today;
      && SameDay(r, day)
      && (ValidStamp(day) ==> ValidStamp(r))
      && forall s :: ValidStamp(s) && SameDay(s, day) ==> AtOrBefore(r, s)
  {
    Midnight(if createdAt.Some? then createdAt.value else today)
  }

  /** new_book: both codes are upper-cased first. A club code unknown in every
      guild crashes (get_club's IndexError); a book code already used in any
      guild is reported; otherwise one book row is appended and the club's
      board is re-rendered. */
  method NewBook(store: Store, isAdmin: bool, g: GuildId, home: GuildId, clubCode: string, name: string, code: string,
                 points: Option<real>, createdAt: Option<Stamp>, today: Stamp) returns (out: Outcome)
    modifies store
    ensures !isAdmin ==> out == Outcome(Silent, []) && unchanged(store)
    ensures isAdmin && old(FindClub(store.clubs, g, Upper(clubCode))).None? ==>
      out == Outcome(Crash, []) && unchanged(store)
    ensures isAdmin && old(FindClub(store.clubs, g, Upper(clubCode))).Some? && old(FindBook(store.books, g, Upper(code))).Some? ==>
      out == Outcome(Say(BookExists(Upper(code))), []) && unchanged(store)
    ensures isAdmin && old(FindClub(store.clubs, g, Upper(clubCode))).Some? && old(FindBook(store.books, g, Upper(code))).None? ==>
      && store.books == old(store.books) + [Book(g, name, Upper(code), Upper(clubCode), GivenPoints(points), GivenDay(createdAt, today))]
      && store.clubs == old(store.clubs) && store.activities == old(store.activities) && store.logs == old(store.logs)
      && out == Outcome(Say(BookAdded(name, Upper(code), GivenPoints(points))),
                        Refresh(store.books, store.activities, home, [Some(Upper(clubCode))]))
    ensures BookCodesUnique(old(store.books)) ==> BookCodesUnique(store.books)
  {
    if !isAdmin {
      return Outcome(Silent, []);
    }
    var cc := Upper(clubCode);
    var c := Upper(code);
    var day := GivenDay(createdAt, today);
    var club := FindClub(store.clubs, g, cc);
    if club.None? {
      return Outcome(Crash, []);
    }
    var book := FindBook(store.books, g, c);
    if book.Some? {
      return Outcome(Say(BookExists(c)), []);
    }
    var pts := GivenPoints(points);
    if BookCodesUnique(store.books) {
      AppendFreshBook(store.books, Book(g, name, c, cc, pts, day));
    }
    store.NewBook(g, cc, name, c, pts, day);
    out := Outcome(Say(BookAdded(name, c, pts)), Refresh(store.books, store.activities, home, [Some(cc)]));
  }

  // ---- delete_book -----------------------------------------------------------

  /** delete_book: the code is upper-cased; a code no book has is reported and
      nothing changes; otherwise the guild's book with that code and every
      activity naming it are removed and the book's club board re-rendered. */
  method DeleteBook(store: Store, isAdmin: bool, g: GuildId, home: GuildId, code: string) returns (out: Outcome)
    modifies store
    ensures !isAdmin ==> out == Outcome(Silent, []) && unchanged(store)
    ensures isAdmin && old(FindBook(store.books, g, Upper(code))).None? ==>
      out == Outcome(Say(NoSuchBook), []) && unchanged(store)
    ensures isAdmin && old(FindBook(store.books, g, Upper(code))).Some? ==>
      && store.books == Filter(old(store.books), NotBook(g, Upper(code)))
      && store.activities == Filter(old(store.activities), NotOfBook(g, Upper(code)))
      && store.clubs == old(store.clubs) && store.logs == old(store.logs)
      && (forall b :: b in store.books ==> !(b.guild == g && b.code == Upper(code)))
      && (forall a :: a in store.activities ==> !(a.guild == g && a.bookCode == Upper(code)))
      && out == Outcome(Say(BookDeleted(Upper(code))),
                        Refresh(store.books, store.activities, home,
                                [Some(old(FindBook(store.books, g, Upper(code))).value.clubCode)]))
    ensures BookCodesUnique(old(store.books)) ==> BookCodesUnique(store.books)
  {
    if !isAdmin {
      return Outcome(Silent, []);
    }
    var c := Upper(code);
    var book := FindBook(store.books, g, c);
    if book.None? {
      return Outcome(Say(NoSuchBook), []);
    }
    if BookCodesUnique(store.books) {
      DeleteKeepsCodesUnique(store.books, g, c);
    }
    store.DeleteBook(g, c);
    forall b | b in store.books ensures !(b.guild == g && b.code == c) {
      FilterMember(old(store.books), NotBook(g, c), b);
    }
    forall a | a in store.activities ensures !(a.guild == g && a.bookCode == c) {
      FilterMember(old(store.activities), NotOfBook(g, c), a);
    }
    out := Outcome(Say(BookDeleted(c)), Refresh(store.books, store.activities, home, [Some(book.value.clubCode)]));
  }

  // ---- finished --------------------------------------------------------------

  /** The points a finish is worth: the book's own points when none are given
      or the given value is 0 (Python's `if not points`), else the given value. */
  function AwardedPoints(points: Option<real>, book: Book): (r: real)
    ensures points.Some? && points.value != 0.0 ==> r == points.value
    ensures points.None? || points.value == 0.0 ==> r == book.points
    ensures r == 0.0 ==> book.points == 0.0
  {
    if points.None? || points.value == 0.0 then book.points else points.value
  }

  /** finished: the book code is upper-cased; an unknown book or a finish the
      user already has is reported; otherwise one activity of the book's club
      is appended and the club's board and then the all-clubs board are
      re-rendered. */
  method Finished(store: Store, isAdmin: bool, g: GuildId, home: GuildId, member: UserId, bookCode: string,
                  points: Option<real>) returns (out: Outcome)
    modifies store
    ensures !isAdmin ==> out == Outcome(Silent, []) && unchanged(store)
    ensures isAdmin && old(FindBook(store.books, g, Upper(bookCode))).None? ==>
      out == Outcome(Say(UnknownBook(Upper(bookCode))), []) && unchanged(store)
    ensures isAdmin && old(FindBook(store.books, g, Upper(bookCode))).Some?
            && old(FindActivity(store.activities, g, member, Upper(bookCode))).Some? ==>
      out == Outcome(Say(AlreadyFinished(member, Upper(bookCode))), []) && unchanged(store)
    ensures isAdmin && old(FindBook(store.books, g, Upper(bookCode))).Some?
            && old(FindActivity(store.activities, g, member, Upper(bookCode))).None? ==>
      var book := old(FindBook(store.books, g, Upper(bookCode))).value;
      && store.activities == old(store.activities) + [Activity(g, member, book.clubCode, Upper(bookCode), AwardedPoints(points, book))]
      && store.clubs == old(store.clubs) && store.books == old(store.books) && store.logs == old(store.logs)
      && out == Outcome(Say(FinishedBook(member, Upper(bookCode))),
                        Refresh(store.books, store.activities, home, [Some(book.clubCode), None]))
    ensures OneFinishEach(old(store.activities)) ==> OneFinishEach(store.activities)
  {
    if !isAdmin {
      return Outcome(Silent, []);
    }
    var c := Upper(bookCode);
    var book := FindBook(store.books, g, c);
    if book.None? {
      return Outcome(Say(UnknownBook(c)), []);
    }
    var activity := FindActivity(store.activities, g, member, c);
    if activity.Some? {
      return Outcome(Say(AlreadyFinished(member, c)), []);
    }
    var b := book.value;
    var pts := AwardedPoints(points, b);
    if OneFinishEach(store.activities) {
      AppendFreshActivity(store.activities, Activity(g, member, b.clubCode, c, pts));
    }
    store.NewActivity(g, member, b.clubCode, c, pts);
    out := Outcome(Say(FinishedBook(member, c)), Refresh(store.books, store.activities, home, [Some(b.clubCode), None]));
  }
}
