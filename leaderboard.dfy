/** `Store.get_leaderboard` (db.py): the weighted media-log leaderboard.
    Logs are selected by an optional timeframe and an optional media type (of
    every guild: the query has no guild condition), each log scores its
    amount times its media type's weight, totals are summed per user, ranked
    with SQL `RANK()` (one more than the number of strictly greater totals,
    so ties share a rank and leave a gap), and the rows ranked at most 20 or
    within one rank of a reference user are returned. */
module Leaderboard {
  import opened Util
  import opened Calendar
  import opened Schema
  import opened Grouping
  import opened Queries

  /** The timeframe argument: `month`, `week`, or any other value (no time condition). */
  datatype Timeframe = Month | Week | AllTime

  /** The conditions `get_leaderboard` may put in its WHERE clause. */
  datatype Clause = SinceMonthStart | SameWeekday | OfMediaType(mediaType: string)

  /** `where_clauses`: at most one time condition, then the media-type condition. */
  function WhereClauses(tf: Timeframe, mediaType: Option<string>): (cs: seq<Clause>)
    ensures SinceMonthStart in cs <==> tf == Month
    ensures SameWeekday in cs <==> tf == Week
    ensures forall t :: OfMediaType(t) in cs <==> mediaType == Some(t)
  {
    var timeClauses := if tf == Month then [SinceMonthStart] else if tf == Week then [SameWeekday] else [];
    timeClauses + (if mediaType.Some? then [OfMediaType(mediaType.value)] else [])
  }

  /** One condition on a log row; `now` is the query's `date('now')`. */
  predicate Holds(c: Clause, l: Log, now: Stamp)
  {
    match c
    case SinceMonthStart => AtOrBefore(MonthStart(now), l.createdAt)
    case SameWeekday => Weekday(l.createdAt) == Weekday(now)
    case OfMediaType(t) => l.mediaType == t
  }

  /** The conditions joined by AND; no condition at all keeps every row. */
  predicate Satisfies(l: Log, cs: seq<Clause>, now: Stamp)
  {
    forall c :: c in cs ==> Holds(c, l, now)
  }

  /** What the WHERE clause asks of one row, condition by condition. */
  predicate Wanted(l: Log, tf: Timeframe, mediaType: Option<string>, now: Stamp)
  {
    && (tf == Month ==> AtOrBefore(MonthStart(now), l.createdAt))
    && (tf == Week ==> Weekday(l.createdAt) == Weekday(now))
    && (mediaType.Some? ==> l.mediaType == mediaType.value)
  }

  lemma SatisfiesWhere(l: Log, tf: Timeframe, mediaType: Option<string>, now: Stamp)
    ensures Satisfies(l, WhereClauses(tf, mediaType), now) <==> Wanted(l, tf, mediaType, now)
  {
    var cs := WhereClauses(tf, mediaType);
    if Satisfies(l, cs, now) {
      if tf == Month { assert Holds(SinceMonthStart, l, now); }
      if tf == Week { assert Holds(SameWeekday, l, now); }
      if mediaType.Some? { assert Holds(OfMediaType(mediaType.value), l, now); }
    }
    if Wanted(l, tf, mediaType, now) {
      forall c | c in cs ensures Holds(c, l, now) {
        if c.OfMediaType? {
          assert mediaType == Some(c.mediaType);
        }
      }
    }
  }

  /** The log rows the leaderboard adds up, from every guild. */
  function Selected(logs: seq<Log>, tf: Timeframe, mediaType: Option<string>, now: Stamp): (r: seq<Log>)
    ensures forall x :: multiset(r)[x] == if Wanted(x, tf, mediaType, now) then multiset(logs)[x] else 0
  {
    var cs := WhereClauses(tf, mediaType);
    forall x ensures Satisfies(x, cs, now) <==> Wanted(x, tf, mediaType, now) {
      SatisfiesWhere(x, tf, mediaType, now);
    }
    Filter(logs, (l: Log) => Satisfies(l, cs, now))
  }

  // ---- weighted totals --------------------------------------------------------

  /** The media types the CASE expression names. */
  const WeightedMedia: set<string> := {"BOOK", "MANGA", "VN", "ANIME", "READING", "READTIME", "LISTENING"}

  /** The CASE expression: points per unit of each media type; any other type scores 0. */
  function Weight(mediaType: string): (w: real)
    ensures w >= 0.0
    ensures w > 0.0 <==> mediaType in WeightedMedia
  {
    if mediaType == "BOOK" then 1.0
    else if mediaType == "MANGA" then 0.2
    else if mediaType == "VN" then 1.0 / 350.0
    else if mediaType == "ANIME" then 9.5
    else if mediaType == "READING" then 1.0 / 350.0
    else if mediaType == "READTIME" then 0.45
    else if mediaType == "LISTENING" then 0.45
    else 0.0
  }

  function Score(l: Log): real { l.amount * Weight(l.mediaType) }

  function LogUser(l: Log): UserId { l.user }

  /** Reference total: a user's weighted amounts over the selected rows. */
  function UserScore(rows: seq<Log>, u: UserId): real
  {
    KeyTotal(rows, LogUser, Score, u)
  }

  /** The users with at least one selected row. */
  function Users(rows: seq<Log>): set<UserId>
  {
    set l | l in rows :: l.user
  }

  /** Reference rank: one more than the number of users with a strictly greater total. */
  function TrueRank(rows: seq<Log>, u: UserId): int
  {
    1 + |set v | v in Users(rows) && UserScore(rows, v) > UserScore(rows, u)|
  }

  /** The `scoreboard` table: one (user, total) per user, highest total first. */
  function Standings(rows: seq<Log>): (st: seq<UserPoints>)
    ensures forall i, j :: 0 <= i < j < |st| ==> st[i].user != st[j].user
    ensures forall i, j :: 0 <= i < j < |st| ==> st[i].points >= st[j].points
  {
    SortedTotals(KeyedValues(rows, LogUser, Score))
  }

  /** The standings hold one row per selected user, with that user's total,
      highest total first. */
  lemma StandingsFacts(rows: seq<Log>, st: seq<UserPoints>)
    requires st == Standings(rows)
    ensures forall i, j :: 0 <= i < j < |st| ==> st[i].user != st[j].user
    ensures UserSet(st) == Users(rows)
    ensures forall j :: 0 <= j < |st| ==> st[j].points == UserScore(rows, st[j].user)
    ensures forall i, j :: 0 <= i < j < |st| ==> st[i].points >= st[j].points
  {
    StandingsUsers(rows);
    forall j | 0 <= j < |st|
      ensures st[j].points == UserScore(rows, st[j].user)
    {
      KeyedValuesSum(rows, LogUser, Score, st[j].user);
    }
  }

  /** The users grouped by the `scoreboard` CTE are the users with a selected row. */
  lemma StandingsUsers(rows: seq<Log>)
    ensures Keys(KeyedValues(rows, LogUser, Score)) == Users(rows)
  {
    var pairs := KeyedValues(rows, LogUser, Score);
    forall v ensures v in Keys(pairs) <==> v in Users(rows) {
      KeyedValuesKeys(rows, LogUser, Score, v);
      if v in Users(rows) {
        var l :| l in rows && l.user == v;
        assert LogUser(l) == v;
      }
    }
  }

  // ---- RANK () OVER (ORDER BY total DESC) ---------------------------------------

  datatype Row = Row(user: UserId, total: real, rank: int)

  /** The number of standings with a total strictly greater than `t`. */
  function CountAbove(st: seq<UserPoints>, t: real): nat
  {
    if st == [] then 0
    else CountAbove(st[..|st| - 1], t) + (if st[|st| - 1].points > t then 1 else 0)
  }

  /** The `leaderboard` table: every standing, in the same order, with its
      rank, which is at least 1. */
  function Ranked(st: seq<UserPoints>): (r: seq<Row>)
    ensures |r| == |st|
    ensures forall i :: 0 <= i < |r| ==> r[i].user == st[i].user && r[i].total == st[i].points && r[i].rank >= 1
  {
    seq(|st|, i requires 0 <= i < |st| => Row(st[i].user, st[i].points, 1 + CountAbove(st, st[i].points)))
  }

  /** The users counted above `t`. */
  function UsersAbove(st: seq<UserPoints>, t: real): set<UserId>
  {
    set j | 0 <= j < |st| && st[j].points > t :: st[j].user
  }

  /** The users above `t` grow by the last standing when it is above `t`. */
  lemma UsersAboveSnoc(st: seq<UserPoints>, t: real)
    requires st != []
    ensures UsersAbove(st, t) ==
      UsersAbove(st[..|st| - 1], t) + (if st[|st| - 1].points > t then {st[|st| - 1].user} else {})
  {
    var front := st[..|st| - 1];
    var last := st[|st| - 1];
    forall v ensures v in UsersAbove(st, t) <==> v in UsersAbove(front, t) + (if last.points > t then {last.user} else {}) {
      if v in UsersAbove(st, t) {
        var j :| 0 <= j < |st| && st[j].points > t && st[j].user == v;
        if j < |front| { assert front[j] == st[j]; }
      }
      if v in UsersAbove(front, t) {
        var j :| 0 <= j < |front| && front[j].points > t && front[j].user == v;
        assert st[j] == front[j];
      }
    }
  }

  /** With one standing per user, counting standings is counting users. */
  lemma {:induction false} CountAboveUsers(st: seq<UserPoints>, t: real)
    requires forall i, j :: 0 <= i < j < |st| ==> st[i].user != st[j].user
    ensures CountAbove(st, t) == |UsersAbove(st, t)|
  {
    if st != [] {
      var front := st[..|st| - 1];
      var last := st[|st| - 1];
      assert forall i, j :: 0 <= i < j < |front| ==> front[i].user != front[j].user;
      CountAboveUsers(front, t);
      forall j | 0 <= j < |front| ensures front[j].user != last.user {
        assert front[j] == st[j];
      }
      assert last.user !in UsersAbove(front, t);
      UsersAboveSnoc(st, t);
    }
  }

  /** A lower bound moves no standing out of the count; one standing in
      between adds at least one. */
  lemma {:induction false} CountAboveMonotone(st: seq<UserPoints>, p: real, q: real)
    requires p <= q
    ensures CountAbove(st, p) >= CountAbove(st, q)
    ensures (exists j :: 0 <= j < |st| && p < st[j].points <= q) ==> CountAbove(st, p) > CountAbove(st, q)
  {
    if st != [] {
      var front := st[..|st| - 1];
      CountAboveMonotone(front, p, q);
      if exists j :: 0 <= j < |st| && p < st[j].points <= q {
        var j :| 0 <= j < |st| && p < st[j].points <= q;
        if j < |front| {
          assert front[j] == st[j];
        }
      }
    }
  }

  /** Ties share a rank; a strictly lower total gets a strictly greater rank. */
  lemma RankOrder(st: seq<UserPoints>, i: int, j: int)
    requires 0 <= i < |st| && 0 <= j < |st|
    ensures st[i].points == st[j].points ==> Ranked(st)[i].rank == Ranked(st)[j].rank
    ensures st[i].points < st[j].points ==> Ranked(st)[i].rank > Ranked(st)[j].rank
  {
    if st[i].points < st[j].points {
      CountAboveMonotone(st, st[i].points, st[j].points);
    }
  }

  /** No standing counts itself, so ranks run from 1 to the number of users. */
  lemma {:induction false} CountAboveBelowSize(st: seq<UserPoints>, t: real)
    ensures CountAbove(st, t) <= |st|
    ensures (exists j :: 0 <= j < |st| && st[j].points <= t) ==> CountAbove(st, t) < |st|
  {
    if st != [] {
      var front := st[..|st| - 1];
      CountAboveBelowSize(front, t);
      if exists j :: 0 <= j < |st| && st[j].points <= t {
        var j :| 0 <= j < |st| && st[j].points <= t;
        if j < |front| {
          assert front[j] == st[j];
        }
      }
    }
  }

  lemma RankBounds(st: seq<UserPoints>, i: int)
    requires 0 <= i < |st|
    ensures 1 <= Ranked(st)[i].rank <= |st|
  {
    CountAboveBelowSize(st, st[i].points);
  }

  /** The users counted above `t` are the selected users whose total exceeds `t`. */
  lemma UsersAboveIsUsers(rows: seq<Log>, st: seq<UserPoints>, t: real)
    requires st == Standings(rows)
    ensures UsersAbove(st, t) == set v | v in Users(rows) && UserScore(rows, v) > t
  {
    StandingsFacts(rows, st);
    forall v | v in Users(rows) && UserScore(rows, v) > t
      ensures v in UsersAbove(st, t)
    {
      assert v in UserSet(st);
      var k :| 0 <= k < |st| && st[k].user == v;
      assert st[k].points > t;
    }
  }

  /** The ranks in the table are the reference ranks of the selected rows. */
  lemma RankedIsTrueRank(rows: seq<Log>, st: seq<UserPoints>, j: int)
    requires st == Standings(rows)
    requires 0 <= j < |st|
    ensures Ranked(st)[j].rank == TrueRank(rows, st[j].user)
  {
    StandingsFacts(rows, st);
    CountAboveUsers(st, st[j].points);
    UsersAboveIsUsers(rows, st, st[j].points);
  }

  // ---- the returned rows ------------------------------------------------------------

  function RowOf(u: UserId): Row -> bool
  {
    (row: Row) => row.user == u
  }

  /** `(SELECT rank FROM leaderboard WHERE discord_user_id = ?)`; None is SQL NULL. */
  function RefRank(ranked: seq<Row>, u: UserId): (r: Option<int>)
    ensures r.None? <==> forall row :: row in ranked ==> row.user != u
    ensures r.Some? ==> exists i :: 0 <= i < |ranked| && ranked[i].user == u && ranked[i].rank == r.value
                                    && forall j :: 0 <= j < i ==> ranked[j].user != u
  {
    match First(ranked, RowOf(u))
    case None => None
    case Some(row) => Some(row.rank)
  }

  /** `rank <= 20 OR (rank >= ref - 1 AND rank <= ref + 1)`: with a NULL
      reference the second disjunct is NULL, so only the top 20 pass. */
  predicate InWindow(rank: int, ref: Option<int>)
  {
    rank <= 20 || (ref.Some? && ref.value - 1 <= rank <= ref.value + 1)
  }

  /** The reference rank: the user's own rank, or NULL when they have no selected row. */
  function ReferenceRank(rows: seq<Log>, u: UserId): Option<int>
  {
    if u in Users(rows) then Some(TrueRank(rows, u)) else None
  }

  lemma RefRankIsReference(rows: seq<Log>, st: seq<UserPoints>, u: UserId)
    requires st == Standings(rows)
    ensures RefRank(Ranked(st), u) == ReferenceRank(rows, u)
  {
    var ranked := Ranked(st);
    RankedRows(rows, st, ranked);
    RankedCovers(rows, st, ranked);
    var found := First(ranked, RowOf(u));
    if u in Users(rows) {
      var row :| row in ranked && row.user == u;
      assert RowOf(u)(row);
    }
    if found.Some? {
      assert found.value in ranked && RowOf(u)(found.value);
    }
  }

  function InWindowOf(ref: Option<int>): Row -> bool
  {
    (row: Row) => InWindow(row.rank, ref)
  }

  predicate DifferentUsers(a: Row, b: Row) { a.user != b.user }

  predicate NotBelow(a: Row, b: Row) { a.total >= b.total }

  /** Every row of the ranked table is a selected user with their reference
      total and reference rank. */
  lemma RankedRows(rows: seq<Log>, st: seq<UserPoints>, ranked: seq<Row>)
    requires st == Standings(rows) && ranked == Ranked(st)
    ensures forall row :: row in ranked ==>
      row.user in Users(rows) && row.total == UserScore(rows, row.user) && row.rank == TrueRank(rows, row.user)
  {
    forall row | row in ranked
      ensures row.user in Users(rows) && row.total == UserScore(rows, row.user) && row.rank == TrueRank(rows, row.user)
    {
      var k :| 0 <= k < |ranked| && ranked[k] == row;
      StandingsFacts(rows, st);
      assert st[k].user in UserSet(st);
      RankedIsTrueRank(rows, st, k);
    }
  }

  /** Every selected user has a row in the ranked table. */
  lemma RankedCovers(rows: seq<Log>, st: seq<UserPoints>, ranked: seq<Row>)
    requires st == Standings(rows) && ranked == Ranked(st)
    ensures forall v :: v in Users(rows) ==> exists row :: row in ranked && row.user == v
  {
    forall v | v in Users(rows)
      ensures exists row :: row in ranked && row.user == v
    {
      StandingsFacts(rows, st);
      assert v in UserSet(st);
      var k :| 0 <= k < |st| && st[k].user == v;
      assert ranked[k] in ranked;
    }
  }

  /** One row per user, highest total first. */
  lemma RankedOrder(rows: seq<Log>, st: seq<UserPoints>, ranked: seq<Row>)
    requires st == Standings(rows) && ranked == Ranked(st)
    ensures forall i, j :: 0 <= i < j < |ranked| ==> DifferentUsers(ranked[i], ranked[j])
    ensures forall i, j :: 0 <= i < j < |ranked| ==> NotBelow(ranked[i], ranked[j])
  {
    StandingsFacts(rows, st);
  }

  /** A returned row is a selected user with their total and rank, inside the window. */
  lemma WindowRows(rows: seq<Log>, u: UserId, st: seq<UserPoints>, ranked: seq<Row>, r: seq<Row>)
    requires st == Standings(rows) && ranked == Ranked(st)
    requires r == Filter(ranked, InWindowOf(RefRank(ranked, u)))
    ensures forall row :: row in r ==>
      && row.user in Users(rows)
      && row.total == UserScore(rows, row.user)
      && row.rank == TrueRank(rows, row.user)
      && InWindow(row.rank, ReferenceRank(rows, u))
  {
    RankedRows(rows, st, ranked);
    RefRankIsReference(rows, st, u);
    forall row | row in r
      ensures row in ranked && InWindow(row.rank, ReferenceRank(rows, u))
    {
      FilterMember(ranked, InWindowOf(RefRank(ranked, u)), row);
    }
  }

  /** Every selected user whose rank is inside the window is returned. */
  lemma WindowCovers(rows: seq<Log>, u: UserId, st: seq<UserPoints>, ranked: seq<Row>, r: seq<Row>)
    requires st == Standings(rows) && ranked == Ranked(st)
    requires r == Filter(ranked, InWindowOf(RefRank(ranked, u)))
    ensures forall v :: v in Users(rows) && InWindow(TrueRank(rows, v), ReferenceRank(rows, u)) ==>
      exists row :: row in r && row.user == v
  {
    RankedRows(rows, st, ranked);
    RankedCovers(rows, st, ranked);
    RefRankIsReference(rows, st, u);
    forall v | v in Users(rows) && InWindow(TrueRank(rows, v), ReferenceRank(rows, u))
      ensures exists row :: row in r && row.user == v
    {
      var row :| row in ranked && row.user == v;
      FilterMember(ranked, InWindowOf(RefRank(ranked, u)), row);
    }
  }

  lemma WindowOrder(rows: seq<Log>, u: UserId, st: seq<UserPoints>, ranked: seq<Row>, r: seq<Row>)
    requires st == Standings(rows) && ranked == Ranked(st)
    requires r == Filter(ranked, InWindowOf(RefRank(ranked, u)))
    ensures forall i, j :: 0 <= i < j < |r| ==> r[i].user != r[j].user
    ensures forall i, j :: 0 <= i < j < |r| ==> r[i].total >= r[j].total
  {
    RankedOrder(rows, st, ranked);
    FilterPairwise(ranked, InWindowOf(RefRank(ranked, u)), DifferentUsers);
    FilterPairwise(ranked, InWindowOf(RefRank(ranked, u)), NotBelow);
    assert forall i, j :: 0 <= i < j < |r| ==> DifferentUsers(r[i], r[j]);
    assert forall i, j :: 0 <= i < j < |r| ==> NotBelow(r[i], r[j]);
  }

  /** The rows `get_leaderboard` returns for reference user `u`, given the
      selected logs: exactly the users inside the window, each with the
      total and rank the query defines, highest total first. */
  function Window(rows: seq<Log>, u: UserId): (r: seq<Row>)
    ensures forall row :: row in r ==>
      && row.user in Users(rows)
      && row.total == UserScore(rows, row.user)
      && row.rank == TrueRank(rows, row.user)
      && InWindow(row.rank, ReferenceRank(rows, u))
    ensures forall v :: v in Users(rows) && InWindow(TrueRank(rows, v), ReferenceRank(rows, u)) ==>
      exists row :: row in r && row.user == v
    ensures forall i, j :: 0 <= i < j < |r| ==> r[i].user != r[j].user
    ensures forall i, j :: 0 <= i < j < |r| ==> r[i].total >= r[j].total
  {
    var st := Standings(rows);
    var ranked := Ranked(st);
    var r := Filter(ranked, InWindowOf(RefRank(ranked, u)));
    WindowRows(rows, u, st, ranked, r);
    WindowCovers(rows, u, st, ranked, r);
    WindowOrder(rows, u, st, ranked, r);
    r
  }

  /** Ranks run from 1 to the number of selected users. */
  lemma TrueRankBounds(rows: seq<Log>, v: UserId)
    requires v in Users(rows)
    ensures 1 <= TrueRank(rows, v) <= |Users(rows)|
  {
    var st := Standings(rows);
    StandingsFacts(rows, st);
    assert v in UserSet(st);
    var k :| 0 <= k < |st| && st[k].user == v;
    RankedIsTrueRank(rows, st, k);
    RankBounds(st, k);
    UserSetSize(st);
  }

  /** With at most 20 selected users every one of them is returned. */
  lemma SmallBoardComplete(rows: seq<Log>, u: UserId)
    requires |Users(rows)| <= 20
    ensures forall v :: v in Users(rows) ==> exists row :: row in Window(rows, u) && row.user == v
  {
    var w := Window(rows, u);
    forall v | v in Users(rows)
      ensures InWindow(TrueRank(rows, v), ReferenceRank(rows, u))
    {
      TrueRankBounds(rows, v);
    }
  }

  /** A user who logged 100 pages of manga and one book scores 100 * 0.2 + 1 = 21. */
  lemma MangaAndBookScore(g: GuildId, u: UserId, at: Stamp)
    ensures UserScore([Log(g, u, "MANGA", 100.0, "", at), Log(g, u, "BOOK", 1.0, "", at)], u) == 21.0
  {
    var rows := [Log(g, u, "MANGA", 100.0, "", at), Log(g, u, "BOOK", 1.0, "", at)];
    assert rows[..1][..0] == [];
    assert rows[..1] == [rows[0]];
    assert Score(rows[0]) == 20.0 && Score(rows[1]) == 1.0;
    assert KeyTotal(rows[..1], LogUser, Score, u) == 20.0;
  }

  /** Two users tied at the top share rank 1 and the next one is ranked 3, not 2. */
  lemma RankLeavesGap()
    ensures var ranked := Ranked([UserPoints(1, 5.0), UserPoints(2, 5.0), UserPoints(3, 2.0)]);
      ranked[0].rank == 1 && ranked[1].rank == 1 && ranked[2].rank == 3
  {
    var st := [UserPoints(1, 5.0), UserPoints(2, 5.0), UserPoints(3, 2.0)];
    assert st[..2] == [st[0], st[1]];
    assert st[..2][..1] == [st[0]];
    assert st[..2][..1][..0] == [];
    assert CountAbove(st[..2][..1], 5.0) == 0 && CountAbove(st[..2], 5.0) == 0 && CountAbove(st, 5.0) == 0;
    assert CountAbove(st[..2][..1], 2.0) == 1 && CountAbove(st[..2], 2.0) == 2 && CountAbove(st, 2.0) == 2;
  }

  /** get_leaderboard: over the wanted logs of every guild, exactly the users
      ranked at most 20 or within one rank of `u`, each with their weighted
      total and RANK(), highest total first. */
  function Board(logs: seq<Log>, u: UserId, tf: Timeframe, mediaType: Option<string>, now: Stamp): (r: seq<Row>)
    ensures forall row :: row in r ==>
      && row.user in Users(Selected(logs, tf, mediaType, now))
      && row.total == UserScore(Selected(logs, tf, mediaType, now), row.user)
      && row.rank == TrueRank(Selected(logs, tf, mediaType, now), row.user)
      && InWindow(row.rank, ReferenceRank(Selected(logs, tf, mediaType, now), u))
    ensures forall v ::
      (v in Users(Selected(logs, tf, mediaType, now)) &&
       InWindow(TrueRank(Selected(logs, tf, mediaType, now), v), ReferenceRank(Selected(logs, tf, mediaType, now), u))) ==>
      exists row :: row in r && row.user == v
    ensures forall i, j :: 0 <= i < j < |r| ==> r[i].user != r[j].user
    ensures forall i, j :: 0 <= i < j < |r| ==> r[i].total >= r[j].total
  {
    Window(Selected(logs, tf, mediaType, now), u)
  }
}
