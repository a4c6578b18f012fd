/** The read-only queries of `Store` (db.py), as functions of the tables.
    A query with `ORDER BY created_at DESC` returns its rows newest first;
    SQL leaves the order of ties open, and the model keeps table order
    among them. A query without ORDER BY returns its rows in table order. */
module Queries {
  import opened Util
  import opened Calendar
  import opened Schema
  import opened Grouping

  // ---- orderings --------------------------------------------------------

  predicate LogNewer(a: Log, b: Log) { AtOrBefore(b.createdAt, a.createdAt) }
  predicate BookNewer(a: Book, b: Book) { AtOrBefore(b.createdAt, a.createdAt) }
  predicate RowNewer(a: JoinedRow, b: JoinedRow) { AtOrBefore(b.book.createdAt, a.book.createdAt) }

  lemma LogNewerPreorder()
    ensures TotalPreorder(LogNewer)
  {
    forall a: Log, b: Log ensures LogNewer(a, b) || LogNewer(b, a) {
      AtOrBeforeTotal(a.createdAt, b.createdAt);
    }
  }

  lemma BookNewerPreorder()
    ensures TotalPreorder(BookNewer)
  {
    forall a: Book, b: Book ensures BookNewer(a, b) || BookNewer(b, a) {
      AtOrBeforeTotal(a.createdAt, b.createdAt);
    }
  }

  lemma RowNewerPreorder()
    ensures TotalPreorder(RowNewer)
  {
    forall a: JoinedRow, b: JoinedRow ensures RowNewer(a, b) || RowNewer(b, a) {
      AtOrBeforeTotal(a.book.createdAt, b.book.createdAt);
    }
  }

  // ---- logs -------------------------------------------------------------

  /** get_logs_by_user: the (guild, user) logs, newest first. */
  function LogsByUser(logs: seq<Log>, g: GuildId, u: UserId): (r: seq<Log>)
    ensures forall x :: multiset(r)[x] == if x.guild == g && x.user == u then multiset(logs)[x] else 0
    ensures forall i, j :: 0 <= i < j < |r| ==> AtOrBefore(r[j].createdAt, r[i].createdAt)
  {
    var rows := Filter(logs, (l: Log) => l.guild == g && l.user == u);
    LogNewerPreorder();
    SortSorted(rows, LogNewer);
    Sort(rows, LogNewer)
  }

  /** get_logs and get_all_logs_by_guild (the same query): the guild's logs, newest first. */
  function GuildLogs(logs: seq<Log>, g: GuildId): (r: seq<Log>)
    ensures forall x :: multiset(r)[x] == if x.guild == g then multiset(logs)[x] else 0
    ensures forall i, j :: 0 <= i < j < |r| ==> AtOrBefore(r[j].createdAt, r[i].createdAt)
  {
    var rows := Filter(logs, (l: Log) => l.guild == g);
    LogNewerPreorder();
    SortSorted(rows, LogNewer);
    Sort(rows, LogNewer)
  }

  /** get_monthly_logs_by_guild: the guild's logs of today's calendar month and year. */
  function MonthlyGuildLogs(logs: seq<Log>, g: GuildId, today: Stamp): (r: seq<Log>)
    ensures forall x :: multiset(r)[x] ==
                        if x.guild == g && x.createdAt.month == today.month && x.createdAt.year == today.year
                        then multiset(logs)[x] else 0
  {
    Filter(logs, (l: Log) => l.guild == g && l.createdAt.month == today.month && l.createdAt.year == today.year)
  }

  /** get_weekly_logs_by_guild: the guild's logs of this year that fall on today's
      weekday (not the last seven days). */
  function WeeklyGuildLogs(logs: seq<Log>, g: GuildId, today: Stamp): (r: seq<Log>)
    ensures forall x :: multiset(r)[x] ==
                        if x.guild == g && Weekday(x.createdAt) == Weekday(today) && x.createdAt.year == today.year
                        then multiset(logs)[x] else 0
  {
    Filter(logs, (l: Log) => l.guild == g && Weekday(l.createdAt) == Weekday(today) && l.createdAt.year == today.year)
  }

  // ---- clubs and books ----------------------------------------------------

  /** get_club: the first club with this code in ANY guild (the guild argument is
      not used). None stands for the IndexError that `fetchall()[0]` raises. */
  function FindClub(clubs: seq<Club>, g: GuildId, code: string): (r: Option<Club>)
    ensures r.None? <==> forall c :: c in clubs ==> c.code != code
    ensures r.Some? ==> r.value in clubs && r.value.code == code
  {
    First(clubs, (c: Club) => c.code == code)
  }

  /** get_book: the first book with this code in ANY guild (the guild argument is
      not used); None when there is none. */
  function FindBook(books: seq<Book>, g: GuildId, code: string): (r: Option<Book>)
    ensures r.None? <==> forall b :: b in books ==> b.code != code
    ensures r.Some? ==> r.value in books && r.value.code == code
  {
    First(books, (b: Book) => b.code == code)
  }

  /** get_books: the club's books in this guild, newest first. */
  function ClubBooks(books: seq<Book>, g: GuildId, clubCode: string): (r: seq<Book>)
    ensures forall x :: multiset(r)[x] == if x.guild == g && x.clubCode == clubCode then multiset(books)[x] else 0
    ensures forall i, j :: 0 <= i < j < |r| ==> AtOrBefore(r[j].createdAt, r[i].createdAt)
  {
    var rows := Filter(books, (b: Book) => b.guild == g && b.clubCode == clubCode);
    BookNewerPreorder();
    SortSorted(rows, BookNewer);
    Sort(rows, BookNewer)
  }

  // ---- activities -----------------------------------------------------------

  /** get_activity: the activity of (guild, user, book), if any. */
  function FindActivity(acts: seq<Activity>, g: GuildId, u: UserId, bookCode: string): (r: Option<Activity>)
    ensures r.None? <==> forall a :: a in acts ==> !(a.guild == g && a.user == u && a.bookCode == bookCode)
    ensures r.Some? ==> r.value in acts && r.value.guild == g && r.value.user == u && r.value.bookCode == bookCode
  {
    First(acts, (a: Activity) => a.guild == g && a.user == u && a.bookCode == bookCode)
  }

  /** get_activities_by_book: the book's activities in this guild, in table order. */
  function BookActivities(acts: seq<Activity>, g: GuildId, bookCode: string): (r: seq<Activity>)
    ensures forall x :: multiset(r)[x] == if x.guild == g && x.bookCode == bookCode then multiset(acts)[x] else 0
  {
    Filter(acts, (a: Activity) => a.guild == g && a.bookCode == bookCode)
  }

  /** The join condition of the activities-books queries. */
  predicate Joins(a: Activity, b: Book)
  {
    a.guild == b.guild && a.bookCode == b.code
  }

  /** The rows one activity contributes to the join: one per matching book row. */
  function JoinBooks(a: Activity, books: seq<Book>): (r: seq<JoinedRow>)
    ensures forall row ::
      multiset(r)[row] ==
        (if row.activity == a && Joins(a, row.book) then multiset(books)[row.book] else 0)
  {
    if books == [] then []
    else
      assert books == [books[0]] + books[1..];
      (if Joins(a, books[0]) then [JoinedRow(a, books[0])] else []) + JoinBooks(a, books[1..])
  }

  /** How many (activity row, book row) pairs of the two tables make up `row`. */
  function Pairings(acts: seq<Activity>, books: seq<Book>, row: JoinedRow): nat
  {
    multiset(acts)[row.activity] * multiset(books)[row.book]
  }

  /** `FROM activities, books WHERE <join condition>`, activity by activity. */
  function Join(acts: seq<Activity>, books: seq<Book>): seq<JoinedRow>
  {
    if acts == [] then [] else JoinBooks(acts[0], books) + Join(acts[1..], books)
  }

  /** The join holds one row for every pair of an activity row and a book
      row that match. */
  lemma {:induction false} JoinCounts(acts: seq<Activity>, books: seq<Book>)
    ensures forall row ::
      multiset(Join(acts, books))[row] ==
        (if Joins(row.activity, row.book) then Pairings(acts, books, row) else 0)
  {
    if acts != [] {
      JoinCounts(acts[1..], books);
      JoinStep(acts, books, JoinBooks(acts[0], books), Join(acts[1..], books));
    }
  }

  lemma JoinStep(acts: seq<Activity>, books: seq<Book>, first: seq<JoinedRow>, rest: seq<JoinedRow>)
    requires acts != []
    requires forall row ::
      multiset(first)[row] ==
        (if row.activity == acts[0] && Joins(acts[0], row.book) then multiset(books)[row.book] else 0)
    requires forall row ::
      multiset(rest)[row] ==
        (if Joins(row.activity, row.book) then Pairings(acts[1..], books, row) else 0)
    ensures forall row ::
      multiset(first + rest)[row] ==
        (if Joins(row.activity, row.book) then Pairings(acts, books, row) else 0)
  {
    assert acts == [acts[0]] + acts[1..];
    forall row
      ensures multiset(first + rest)[row] ==
        (if Joins(row.activity, row.book) then Pairings(acts, books, row) else 0)
    {
      var m := multiset(acts[1..])[row.activity];
      var n := multiset(books)[row.book];
      var d := if row.activity == acts[0] then 1 else 0;
      assert multiset(acts)[row.activity] == d + m;
      Distribute(d, m, n);
    }
  }

  lemma Distribute(d: nat, m: nat, n: nat)
    ensures (d + m) * n == d * n + m * n
  {
  }

  /** A product of counts is positive exactly when both counts are. */
  lemma ProductPositive(m: nat, n: nat)
    ensures m * n > 0 <==> m > 0 && n > 0
  {
    if m > 0 && n > 0 {
      assert m * n >= n;
    }
  }

  /** Which activities a joined query asks for: a club's, or a user's, in one guild. */
  datatype Criterion = ByClub(guild: GuildId, clubCode: string) | ByUser(guild: GuildId, user: UserId)

  predicate Picks(c: Criterion, a: Activity)
  {
    a.guild == c.guild && match c
      case ByClub(_, code) => a.clubCode == code
      case ByUser(_, u) => a.user == u
  }

  /** The WHERE condition on the activities, before the join. */
  function Picked(acts: seq<Activity>, c: Criterion): (r: seq<Activity>)
    ensures forall x :: multiset(r)[x] == if Picks(c, x) then multiset(acts)[x] else 0
  {
    if acts == [] then []
    else
      assert acts == [acts[0]] + acts[1..];
      (if Picks(c, acts[0]) then [acts[0]] else []) + Picked(acts[1..], c)
  }

  /** The activities-books join restricted to the activities `c` asks for, newest book first. */
  function JoinedActivities(acts: seq<Activity>, books: seq<Book>, c: Criterion): seq<JoinedRow>
  {
    Sort(Join(Picked(acts, c), books), RowNewer)
  }

  lemma JoinedSorted(acts: seq<Activity>, books: seq<Book>, c: Criterion, r: seq<JoinedRow>)
    requires r == JoinedActivities(acts, books, c)
    ensures forall i, j :: 0 <= i < j < |r| ==> AtOrBefore(r[j].book.createdAt, r[i].book.createdAt)
  {
    RowNewerPreorder();
    SortSorted(Join(Picked(acts, c), books), RowNewer);
  }

  /** The restricted join holds each matching pair of rows once, with the
      multiplicities of both tables, and nothing else. */
  lemma JoinedRows(acts: seq<Activity>, books: seq<Book>, c: Criterion, r: seq<JoinedRow>)
    requires r == JoinedActivities(acts, books, c)
    ensures forall row ::
      multiset(r)[row] ==
        (if Joins(row.activity, row.book) && Picks(c, row.activity)
         then Pairings(acts, books, row) else 0)
  {
    var picked := Picked(acts, c);
    JoinCounts(picked, books);
    assert multiset(r) == multiset(Join(picked, books));
    forall row
      ensures multiset(r)[row] ==
        (if Joins(row.activity, row.book) && Picks(c, row.activity)
         then Pairings(acts, books, row) else 0)
    {
      JoinedCount(multiset(acts)[row.activity], multiset(books)[row.book], multiset(picked)[row.activity],
                  multiset(r)[row], Joins(row.activity, row.book), Picks(c, row.activity));
    }
  }

  /** A joined row is present exactly when its count is positive. */
  lemma JoinedMembers(acts: seq<Activity>, books: seq<Book>, c: Criterion, r: seq<JoinedRow>)
    requires forall row ::
      multiset(r)[row] ==
        (if Joins(row.activity, row.book) && Picks(c, row.activity)
         then Pairings(acts, books, row) else 0)
    ensures forall row :: row in r <==>
      row.activity in acts && row.book in books && Joins(row.activity, row.book) && Picks(c, row.activity)
  {
    forall row
      ensures row in r <==>
        row.activity in acts && row.book in books && Joins(row.activity, row.book) && Picks(c, row.activity)
    {
      JoinedMember(acts, books, Picks(c, row.activity), r, row);
    }
  }

  /** Filtering before the join zeroes the count of every pair whose activity it drops. */
  lemma JoinedCount(m: nat, n: nat, picked: nat, count: nat, joins: bool, kept: bool)
    requires picked == if kept then m else 0
    requires count == if joins then picked * n else 0
    ensures count == if joins && kept then m * n else 0
  {
  }

  /** A joined row is present exactly when its count is positive. */
  lemma JoinedMember(acts: seq<Activity>, books: seq<Book>, kept: bool, r: seq<JoinedRow>, row: JoinedRow)
    requires multiset(r)[row] ==
      (if Joins(row.activity, row.book) && kept then Pairings(acts, books, row) else 0)
    ensures row in r <==> row.activity in acts && row.book in books && Joins(row.activity, row.book) && kept
  {
    assert row in r <==> row in multiset(r);
    assert row.activity in acts <==> row.activity in multiset(acts);
    assert row.book in books <==> row.book in multiset(books);
    ProductPositive(multiset(acts)[row.activity], multiset(books)[row.book]);
  }

  /** The rows of a joined query: one per matching (activity, book) pair of
      the activities `c` asks for, with the multiplicities of both tables,
      and nothing else; newest book first. */
  lemma JoinedQuery(acts: seq<Activity>, books: seq<Book>, c: Criterion, r: seq<JoinedRow>)
    requires r == JoinedActivities(acts, books, c)
    ensures forall row :: row in r <==>
      row.activity in acts && row.book in books && Joins(row.activity, row.book) && Picks(c, row.activity)
    ensures forall row ::
      multiset(r)[row] ==
        (if Joins(row.activity, row.book) && Picks(c, row.activity)
         then Pairings(acts, books, row) else 0)
    ensures forall i, j :: 0 <= i < j < |r| ==> AtOrBefore(r[j].book.createdAt, r[i].book.createdAt)
  {
    JoinedSorted(acts, books, c, r);
    JoinedRows(acts, books, c, r);
    JoinedMembers(acts, books, c, r);
  }

  /** get_activities_by_club: the club's activities in this guild joined with
      their books, one row per matching (activity, book) pair, newest book first. */
  function ClubActivities(acts: seq<Activity>, books: seq<Book>, g: GuildId, clubCode: string): (r: seq<JoinedRow>)
    ensures forall row :: row in r <==>
      row.activity in acts && row.book in books && Joins(row.activity, row.book)
      && row.activity.guild == g && row.activity.clubCode == clubCode
    ensures forall row ::
      multiset(r)[row] ==
        (if Joins(row.activity, row.book) && row.activity.guild == g && row.activity.clubCode == clubCode
         then Pairings(acts, books, row) else 0)
    ensures forall i, j :: 0 <= i < j < |r| ==> AtOrBefore(r[j].book.createdAt, r[i].book.createdAt)
  {
    var r := JoinedActivities(acts, books, ByClub(g, clubCode));
    JoinedQuery(acts, books, ByClub(g, clubCode), r);
    r
  }

  /** get_activities_by_user: the user's activities in this guild joined with
      their books, one row per matching (activity, book) pair, newest book first. */
  function UserActivities(acts: seq<Activity>, books: seq<Book>, g: GuildId, u: UserId): (r: seq<JoinedRow>)
    ensures forall row :: row in r <==>
      row.activity in acts && row.book in books && Joins(row.activity, row.book)
      && row.activity.guild == g && row.activity.user == u
    ensures forall row ::
      multiset(r)[row] ==
        (if Joins(row.activity, row.book) && row.activity.guild == g && row.activity.user == u
         then Pairings(acts, books, row) else 0)
    ensures forall i, j :: 0 <= i < j < |r| ==> AtOrBefore(r[j].book.createdAt, r[i].book.createdAt)
  {
    var r := JoinedActivities(acts, books, ByUser(g, u));
    JoinedQuery(acts, books, ByUser(g, u), r);
    r
  }

  // ---- per-user totals (GROUP BY user, SUM) ------------------------------------

  datatype UserPoints = UserPoints(user: UserId, points: real)

  function UserOf(p: UserPoints): UserId { p.user }

  predicate MorePoints(a: UserPoints, b: UserPoints) { a.points >= b.points }

  lemma MorePointsPreorder()
    ensures TotalPreorder(MorePoints)
  {
  }

  /** The users that have a row. */
  function UserSet(r: seq<UserPoints>): set<UserId>
  {
    set j | 0 <= j < |r| :: r[j].user
  }

  /** With one row per user there are as many users as rows. */
  lemma {:induction false} UserSetSize(st: seq<UserPoints>)
    requires forall i, j :: 0 <= i < j < |st| ==> st[i].user != st[j].user
    ensures |UserSet(st)| == |st|
  {
    if st != [] {
      var front := st[..|st| - 1];
      var last := st[|st| - 1];
      assert forall i, j :: 0 <= i < j < |front| ==> front[i].user != front[j].user by {
        forall i, j | 0 <= i < j < |front| ensures front[i].user != front[j].user {
          assert front[i] == st[i] && front[j] == st[j];
        }
      }
      UserSetSize(front);
      UserSetSnoc(st);
      forall j | 0 <= j < |front| ensures front[j].user != last.user {
        assert front[j] == st[j];
      }
    }
  }

  /** The users of a table with one more row: those before, and that row's. */
  lemma UserSetSnoc(st: seq<UserPoints>)
    requires st != []
    ensures UserSet(st) == UserSet(st[..|st| - 1]) + {st[|st| - 1].user}
  {
    var front := st[..|st| - 1];
    var last := st[|st| - 1];
    forall v ensures v in UserSet(st) <==> v in UserSet(front) + {last.user} {
      if v in UserSet(st) {
        var j :| 0 <= j < |st| && st[j].user == v;
        if j < |front| { assert front[j] == st[j]; }
      }
      if v in UserSet(front) {
        var j :| 0 <= j < |front| && front[j].user == v;
        assert st[j] == front[j];
      }
    }
  }

  /** `SELECT user, SUM(x) ... GROUP BY user` over (user, x) pairs. */
  function Totals(pairs: seq<(UserId, real)>): (r: seq<UserPoints>)
    ensures forall i, j :: 0 <= i < j < |r| ==> r[i].user != r[j].user
    ensures UserSet(r) == Keys(pairs)
    ensures forall j :: 0 <= j < |r| ==> r[j].points == Sum(Select(pairs, r[j].user))
  {
    var grouped := GroupBy(pairs);
    var r := GroupSums(grouped);
    TotalsUsers(pairs, grouped, r);
    r
  }

  /** One (key, SUM) row per group. */
  function GroupSums(grouped: seq<(UserId, seq<real>)>): (r: seq<UserPoints>)
    ensures |r| == |grouped|
    ensures forall j :: 0 <= j < |r| ==> r[j] == UserPoints(grouped[j].0, Sum(grouped[j].1))
  {
    seq(|grouped|, i requires 0 <= i < |grouped| => UserPoints(grouped[i].0, Sum(grouped[i].1)))
  }

  /** The grouped sums name exactly the users of the pairs. */
  lemma TotalsUsers(pairs: seq<(UserId, real)>, grouped: seq<(UserId, seq<real>)>, r: seq<UserPoints>)
    requires grouped == GroupBy(pairs)
    requires r == GroupSums(grouped)
    ensures UserSet(r) == Keys(pairs)
  {
    forall u ensures u in UserSet(r) <==> u in Keys(pairs) {
      if u in Keys(pairs) {
        var i :| 0 <= i < |pairs| && pairs[i].0 == u;
        assert pairs[i] in pairs;
        var j :| 0 <= j < |grouped| && grouped[j].0 == pairs[i].0;
        assert r[j].user == u;
      }
      if u in UserSet(r) {
        var j :| 0 <= j < |r| && r[j].user == u;
        assert HasKey(pairs, grouped[j].0);
      }
    }
  }

  // ---- scoreboard -------------------------------------------------------------

  /** Python truthiness of an optional club code: None and "" are both false. */
  predicate Given(code: Option<string>)
  {
    code.Some? && code.value != ""
  }

  /** get_scoreboard's WHERE clause, branch by branch. */
  predicate OnScoreboard(a: Activity, g: GuildId, code: Option<string>)
  {
    if Given(code) then
      if code.value == "VN" then a.guild == g && a.clubCode == code.value
      else a.guild == g && a.clubCode == code.value && !(a.clubCode == "VN")
    else a.guild == g && !(a.clubCode == "VN")
  }

  /** The activities a scoreboard adds up. With a club code: that club's
      activities (VN included only when it is asked for by name); without one:
      every club except VN. */
  function ScoreRows(acts: seq<Activity>, g: GuildId, code: Option<string>): (r: seq<Activity>)
    ensures forall x :: multiset(r)[x] ==
                        if x.guild == g && (if Given(code) then x.clubCode == code.value else x.clubCode != "VN")
                        then multiset(acts)[x] else 0
  {
    Filter(acts, (a: Activity) => OnScoreboard(a, g, code))
  }

  function ActivityUser(a: Activity): UserId { a.user }
  function ActivityPoints(a: Activity): real { a.points }

  /** The four facts about GROUP BY user, SUM, ORDER BY the sum DESC, one lemma each. */
  lemma SortedTotalsDistinct(pairs: seq<(UserId, real)>, r: seq<UserPoints>)
    requires r == Sort(Totals(pairs), MorePoints)
    ensures forall i, j :: 0 <= i < j < |r| ==> r[i].user != r[j].user
  {
    var totals := Totals(pairs);
    assert DistinctBy(totals, UserOf);
    SortDistinct(totals, UserOf, MorePoints);
  }

  lemma SortedTotalsOrdered(pairs: seq<(UserId, real)>, r: seq<UserPoints>)
    requires r == Sort(Totals(pairs), MorePoints)
    ensures forall i, j :: 0 <= i < j < |r| ==> r[i].points >= r[j].points
  {
    MorePointsPreorder();
    SortSorted(Totals(pairs), MorePoints);
  }

  lemma SortedTotalsUsers(pairs: seq<(UserId, real)>, r: seq<UserPoints>)
    requires r == Sort(Totals(pairs), MorePoints)
    ensures UserSet(r) == Keys(pairs)
  {
    var totals := Totals(pairs);
    forall u ensures u in UserSet(r) <==> u in UserSet(totals) {
      if u in UserSet(totals) {
        var k :| 0 <= k < |totals| && totals[k].user == u;
        SortMember(totals, MorePoints, totals[k]);
        assert totals[k] in r;
      }
      if u in UserSet(r) {
        var k :| 0 <= k < |r| && r[k].user == u;
        SortMember(totals, MorePoints, r[k]);
        assert r[k] in totals;
      }
    }
  }

  lemma SortedTotalsSums(pairs: seq<(UserId, real)>, r: seq<UserPoints>)
    requires r == Sort(Totals(pairs), MorePoints)
    ensures forall j :: 0 <= j < |r| ==> r[j].points == Sum(Select(pairs, r[j].user))
  {
    var totals := Totals(pairs);
    forall j | 0 <= j < |r|
      ensures r[j].points == Sum(Select(pairs, r[j].user))
    {
      SortMember(totals, MorePoints, r[j]);
      assert r[j] in totals;
    }
  }

  /** GROUP BY user with SUM, then ORDER BY the sum DESC. */
  function SortedTotals(pairs: seq<(UserId, real)>): (r: seq<UserPoints>)
    ensures forall i, j :: 0 <= i < j < |r| ==> r[i].user != r[j].user
    ensures UserSet(r) == Keys(pairs)
    ensures forall j :: 0 <= j < |r| ==> r[j].points == Sum(Select(pairs, r[j].user))
    ensures forall i, j :: 0 <= i < j < |r| ==> r[i].points >= r[j].points
  {
    SortedTotalsDistinct(pairs, Sort(Totals(pairs), MorePoints));
    SortedTotalsOrdered(pairs, Sort(Totals(pairs), MorePoints));
    SortedTotalsUsers(pairs, Sort(Totals(pairs), MorePoints));
    SortedTotalsSums(pairs, Sort(Totals(pairs), MorePoints));
    Sort(Totals(pairs), MorePoints)
  }

  /** The users with at least one of the activities. */
  function ActivityUsers(rows: seq<Activity>): set<UserId>
  {
    set a | a in rows :: a.user
  }

  /** The scoreboard has a row for exactly the users with selected activities. */
  lemma ScoreboardUsers(rows: seq<Activity>, r: seq<UserPoints>)
    requires r == SortedTotals(KeyedValues(rows, ActivityUser, ActivityPoints))
    ensures UserSet(r) == ActivityUsers(rows)
  {
    var pairs := KeyedValues(rows, ActivityUser, ActivityPoints);
    forall u ensures u in Keys(pairs) <==> u in ActivityUsers(rows) {
      KeyedValuesKeys(rows, ActivityUser, ActivityPoints, u);
      if u in ActivityUsers(rows) {
        var a :| a in rows && a.user == u;
        assert ActivityUser(a) == u;
      }
    }
  }

  /** Every scoreboard row carries the sum of its user's selected points. */
  lemma ScoreboardSums(rows: seq<Activity>, r: seq<UserPoints>)
    requires r == SortedTotals(KeyedValues(rows, ActivityUser, ActivityPoints))
    ensures forall j :: 0 <= j < |r| ==> r[j].points == KeyTotal(rows, ActivityUser, ActivityPoints, r[j].user)
  {
    forall j | 0 <= j < |r|
      ensures r[j].points == KeyTotal(rows, ActivityUser, ActivityPoints, r[j].user)
    {
      KeyedValuesSum(rows, ActivityUser, ActivityPoints, r[j].user);
    }
  }

  /** get_scoreboard: one row per user with the sum of their points over the
      selected activities, highest first. */
  function Scoreboard(acts: seq<Activity>, g: GuildId, code: Option<string>): (r: seq<UserPoints>)
    ensures forall i, j :: 0 <= i < j < |r| ==> r[i].user != r[j].user
    ensures UserSet(r) == ActivityUsers(ScoreRows(acts, g, code))
    ensures forall j :: 0 <= j < |r| ==> r[j].points == KeyTotal(ScoreRows(acts, g, code), ActivityUser, ActivityPoints, r[j].user)
    ensures forall i, j :: 0 <= i < j < |r| ==> r[i].points >= r[j].points
  {
    var rows := ScoreRows(acts, g, code);
    ScoreboardUsers(rows, SortedTotals(KeyedValues(rows, ActivityUser, ActivityPoints)));
    ScoreboardSums(rows, SortedTotals(KeyedValues(rows, ActivityUser, ActivityPoints)));
    SortedTotals(KeyedValues(rows, ActivityUser, ActivityPoints))
  }
}
