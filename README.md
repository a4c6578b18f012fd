# bookclubbot in Dafny

bookclubbot is a Discord bot for reading clubs. Clubs have books. An admin
records that a member has finished a book; that record is an *activity*
carrying points. The bot keeps per-club scoreboards and an all-clubs
scoreboard, and it re-renders fixed board messages after every change. It
also answers read-only overviews, and it keeps a separate table of
immersion *logs* (media type, amount) with a weighted, ranked leaderboard.

This project models two things:

- The SQLite-backed `Store` of `db.py`, as a class holding the four tables
  (`clubs`, `books`, `activities`, `logs`) as sequences of rows.
- The decision logic of the command handlers in `book_bot.py`.

What is proved:

- The read-only queries are pure functions over the tables. Their contracts
  state what each query returns: which rows and how many times each, in what
  order, with what sums.
- The mutating statements are methods of `Db.Store`. Each states its whole
  new state and the count it returns.
- The handlers are methods over a `Store`. For each one the model states,
  branch by branch:
  - the reply;
  - the rows inserted or removed;
  - the boards that are re-rendered;
  - the invariants it keeps: book codes stay unique, and each user finishes
    a book only once.
- For the weighted leaderboard: the total is the weighted sum, the rank is
  SQL `RANK()`, and the rows returned are exactly those inside the window.

Modules:

- `Util`: optional values, filters, sums, and a stable sort.
- `Grouping`: SQL `GROUP BY` and the handlers' `defaultdict` loops.
- `Calendar`: time stamps.
- `Schema`: the row types.
- `Queries`: the read-only queries.
- `Leaderboard`: `get_leaderboard`.
- `Db`: the `Store` class.
- `BookBot`: code normalisation and `update_club_message`.
- `Commands`: the admin commands.
- `Views`: the read-only commands.

Conventions of the model:

- SQL leaves the order of rows with equal sort keys open, and the order of
  `GROUP BY` groups open. The model fixes one choice for each: the sort is
  stable in table order, and groups come in order of first appearance.
  The one exception is the `scoreboard` CTE of `get_leaderboard`, which has
  no ORDER BY: the model sorts its groups highest total first.
  Where a query has an ORDER BY, contracts state only the order it promises.
  The outer SELECT of `get_leaderboard` has no ORDER BY: the model returns
  the ranked rows in the order of the `scoreboard` CTE, and the "highest
  first" of `Leaderboard.Window` and `Leaderboard.Board` is a fact about
  that choice, not a promise of SQLite.
- Time stamps are calendar fields validated by `Calendar.ValidStamp`
  (a real date, a second of the day); the query filters are defined on every
  stamp, as SQLite's are on every string.
- Points and amounts are exact `real`s.
- "Now" and "today" are parameters.
- The home guild (`TMW_GUILD_ID`) is a parameter.
- The author's admin role is an input, and so is whether the author is the
  bot itself.

## Model

| member | source | states |
|---|---|---|
| Db.Store.constructor | db.py:25-28 | models a new database file: the four tables start empty |
| Db.Store.NewClub | db.py:30-33 | appends exactly the club row; the other tables are unchanged |
| Db.Store.NewBook | db.py:35-44 | appends exactly the book row (guild, name, code, club code, points, date); the other tables are unchanged |
| Db.Store.NewActivity | db.py:46-55 | appends exactly the activity row; the other tables are unchanged |
| Db.Store.NewLog | db.py:57-66 | appends exactly the log row; the other tables are unchanged |
| Queries.LogsByUser | db.py:68-77 | exactly the (guild, user) logs, with multiplicities, newest first |
| Queries.GuildLogs | db.py:79-88 | exactly the guild's logs, newest first (get_logs and get_all_logs_by_guild issue the same query); see also db.py:143-152 |
| Queries.MonthlyGuildLogs | db.py:154-164 | exactly the guild's logs whose month and year are today's |
| Queries.WeeklyGuildLogs | db.py:166-176 | exactly the guild's logs of this year that fall on today's weekday |
| Calendar.Weekday | db.py:170 | `strftime('%w')`: a day of the week between 0 and 6; that it is the Gregorian weekday is stated by WeekdayOfKnownDates together with WeekdayAdvances |
| Calendar.NextDay | db.py:170 | the calendar day after a valid stamp's day, rolling over month and year ends: valid again (before year 9999), strictly later, and no valid stamp lies on a day between |
| Calendar.WeekdayAdvances | db.py:170 | from every valid day to the next, month and year ends and leap days included, the weekday advances by one; with the anchor dates this fixes every weekday |
| Calendar.WeekdayOfKnownDates | db.py:170 | the weekday formula gives 1970-01-01 and 2024-02-29 as Thursdays, 2000-01-01 as a Saturday and 2023-10-02 as a Monday |
| Calendar.WeekdayNextDay | db.py:170 | within a month the next day is the next day of the week, whatever the time |
| Calendar.MonthStart | db.py:94 | `date('now', 'start of month')`: a valid stamp is at or after it iff it falls in now's month or a later one; it is valid when now is |
| Calendar.Midnight | book_bot.py:106-109 | `datetime.combine(day, min.time())` and `strptime('%Y-%m-%d')`: a stamp on the same day, the earliest valid one of that day |
| Leaderboard.WhereClauses | db.py:91-101 | the month clause is present iff the timeframe is month; the weekday clause iff week; the media-type clause iff a type is given, and it names that type |
| Leaderboard.SatisfiesWhere | db.py:91-101 | a row passes the AND of the clauses iff it meets each requested condition; with no clause every row passes |
| Leaderboard.Selected | db.py:91-101 | exactly the wanted rows of every guild, with multiplicities; no guild condition |
| Leaderboard.Weight | db.py:108-117 | the CASE weight is never negative, and it is positive exactly for the seven media types the CASE names; any other type scores 0 |
| Leaderboard.Standings | db.py:104-121 | the `scoreboard` CTE: one row per user; the rows in non-increasing order of total, an order the model chooses since the CTE has no ORDER BY (the full facts are StandingsFacts) |
| Leaderboard.StandingsFacts | db.py:104-121 | the `scoreboard` CTE has one row per user with a selected log, and no other user; each total is the user's sum of amount times weight; rows come highest total first, the model's choice of order (the CTE has no ORDER BY) |
| Leaderboard.Ranked | db.py:122-128 | the `leaderboard` CTE keeps every scoreboard row, in the same order, with its user and total, and gives it a rank of at least 1 |
| Leaderboard.MangaAndBookScore | db.py:109-117 | 100 units of MANGA plus one BOOK score 100 × 0.2 + 1 = 21 |
| Leaderboard.CountAboveUsers | db.py:126 | with one row per user, counting the rows with a greater total counts the users with a greater total |
| Leaderboard.CountAboveMonotone | db.py:126 | a lower total has at least as many strictly greater totals above it |
| Leaderboard.RankOrder | db.py:126 | equal totals get equal ranks; a strictly lower total gets a strictly greater rank |
| Leaderboard.RankBounds | db.py:126 | every rank lies between 1 and the number of rows |
| Leaderboard.RankedIsTrueRank | db.py:122-128 | the rank in the `leaderboard` CTE is 1 + the number of users with a strictly greater total |
| Leaderboard.TrueRankBounds | db.py:122-128 | a selected user's rank lies between 1 and the number of selected users |
| Leaderboard.RankLeavesGap | db.py:126 | two users tied at the top both get rank 1, and the next user gets 3, not 2 |
| Leaderboard.RefRank | db.py:133-135 | the subquery is NULL iff no ranked row has the user; otherwise it is the rank of the first row with that user |
| Leaderboard.RefRankIsReference | db.py:133-135 | the rank subquery yields the reference user's true rank, or NULL when that user has no selected log |
| Leaderboard.Window | db.py:129-136 | a row is returned iff its rank is at most 20 or within one of the reference rank; a NULL reference leaves only ranks up to 20; returned rows carry the true total and rank, one per user, highest first |
| Leaderboard.SmallBoardComplete | db.py:129-136 | with at most 20 selected users, every one of them is returned |
| Leaderboard.Board | db.py:90-141 | get_leaderboard returns exactly the windowed users of the wanted logs of every guild, each with their weighted total and RANK(), highest first |
| Db.LatestIsNewest | db.py:183-188 | the delete_latest subquery is NULL iff the user has no log; otherwise it is the newest created_at among that user's logs |
| Db.Latest | db.py:183-188 | the subquery's value: the created_at of the first of the user's logs newest first, or NULL without one; what that value is, is LatestIsNewest |
| Db.DeleteLatestCount | db.py:178-192 | as many rows are kept and removed as the old table had; every row keeps its multiplicity unless it is one of the user's logs at the newest time; nothing is removed iff the user has no log |
| Db.Store.DeleteLatest | db.py:178-192 | removes exactly the user's logs stamped at their newest time; every other row keeps its multiplicity and order; returns how many went, which is 0 iff the user had no log |
| Db.Store.DeleteUserLogs | db.py:194-201 | removes exactly the (guild, user) logs; returns how many went; every other row is kept |
| Queries.FindBook | db.py:203-208 | None iff no book in any guild has the code; otherwise a book with that code (the guild is ignored) |
| Db.Store.DeleteBook | db.py:210-221 | removes exactly the (guild, code) books and the (guild, code) activities; no other row changes |
| Queries.ClubBooks | db.py:223-228 | exactly the club's books in the guild, newest first |
| Queries.FindActivity | db.py:230-238 | None iff the (guild, user, book) activity is absent; otherwise that activity |
| Queries.ClubActivities | db.py:240-252 | a joined row is returned iff its activity is the club's in the guild and its book matches on guild and code; each such (activity, book) pair occurs as many times as the activity's multiplicity times the book's (`Queries.Pairings`), as the implicit join does; newest book first |
| Queries.UserActivities | db.py:254-266 | a joined row is returned iff its activity is the user's in the guild and its book matches on guild and code; each such pair occurs activity-multiplicity times book-multiplicity times; newest book first |
| Queries.JoinCounts | db.py:242-246 | the implicit join `FROM activities a, books b WHERE …` holds each matching (activity, book) pair once per pairing of a copy of the activity with a copy of the book, and no other row |
| Queries.BookActivities | db.py:268-273 | exactly the guild's activities of the book |
| Queries.FindClub | db.py:275-281 | None (the IndexError of `fetchall()[0]`) iff no club in any guild has the code; otherwise a club with that code |
| Queries.ScoreRows | db.py:283-313 | VN's rows only for "VN"; only that club's rows for any other code, never VN's; every club except VN without a code |
| Queries.Totals | db.py:287-289 | one row per user of the pairs, and only those users; each carries the sum of that user's values |
| Queries.SortedTotals | db.py:287-290 | the grouped sums, one per user, in non-increasing order of points |
| Queries.Scoreboard | db.py:283-313 | one row per user with a selected activity, and only those; each row is the sum of that user's selected points; non-increasing points |
| Grouping.GroupItems | book_bot.py:184-187 | the defaultdict loop yields one group per key, in first-appearance order, holding the key's values in row order |
| Grouping.GroupByOrdered | book_bot.py:184-191 | grouping keeps row order: if every earlier row's key relates to every later row's key, the groups' keys relate the same way, since a dict keeps each key where it was first inserted |
| Grouping.GroupKeysOrdered | book_bot.py:184-191 | the same for the first-appearance key list |
| Grouping.KeyedValuesAt | book_bot.py:184-187 | the pair at each position is that row's key and value |
| Views.FieldsNewestFirst | book_bot.py:182-191 | rows newest book first give `books` fields newest book first |
| Grouping.GroupedRows | book_bot.py:217-219 | grouping rows by a key gives one group per key that occurs, each holding one value per row with that key |
| Grouping.GroupByCount | book_bot.py:249-251 | the groups together hold exactly as many values as there are rows |
| Grouping.KeyedValuesSum | book_bot.py:221-222 | adding a key's group gives that key's reference sum over the rows |
| BookBot.Upper | book_bot.py:103-104 | `upper()` keeps the length, turns each lower-case ASCII letter into its capital (code point minus 32), and keeps every other character |
| BookBot.UpperIdempotent | book_bot.py:103-104 | upper-casing an upper-cased code changes nothing |
| BookBot.BoardUpdate | book_bot.py:323-359 | a code has no board message (KeyError) iff it is not one of the six clubs or None; otherwise the board's message id, its title, its top-10 lines and its past picks |
| BookBot.BoardSlot | book_bot.py:325-334 | the `info` dict has a message exactly for the six club codes and None |
| BookBot.BoardSlotsDistinct | book_bot.py:325-334 | two different keys of `info` name two different board messages |
| BookBot.TopLines | book_bot.py:351 | at most ten lines, line i being the i-th scoreboard row ranked i + 1 |
| BookBot.BoardStandings | book_bot.py:343-351 | a board shows at most 10 distinct users, ranks 1, 2, … by position, each user's summed points, highest first |
| BookBot.BoardPastPicks | book_bot.py:355-357 | at most 50 past picks, all the club's books in the home guild, newest first |
| BookBot.Refresh | book_bot.py:168-169 | re-renders the boards in order and stops at the first code without a board message |
| BookBot.RefreshAll | book_bot.py:323-334 | when every code has a board message, every board is re-rendered |
| BookBot.StartupRefreshesAll | book_bot.py:315-322 | update_info re-renders all seven boards |
| Commands.NewClub | book_bot.py:84-95 | without an admin role the command is silent; with one it crashes iff no club has the code, and otherwise names the existing club; it never changes the store |
| Commands.NewClubAsIntended | book_bot.py:89-95 | with an admin role an unknown code gets exactly one new club and a known one is reported; afterwards a club with the code exists, and club codes stay unique |
| Commands.NewBook | book_bot.py:98-125 | from a non-admin: nothing. Otherwise both codes are upper-cased; an unknown club crashes with no change; an existing code is reported with no change; else exactly one book is appended, with points defaulting to 2.0 and the day to today, and the club's board is re-rendered; book codes stay unique |
| Commands.GivenPoints | book_bot.py:99 | the `points` argument defaults to 2.0 and is otherwise used as given |
| Commands.GivenDay | book_bot.py:106-109 | the day is the start (second 0) of the given date, or of today when none is given; it lies on that day, is valid when the date is, and is no later than any valid stamp of that day |
| Commands.DeleteBook | book_bot.py:128-141 | from a non-admin: nothing. Otherwise the code is upper-cased; an unknown one gets "No such book" and no change; else the guild's book and its activities are removed, none remains, and the book's club board is re-rendered |
| Commands.Finished | book_bot.py:144-169 | from a non-admin: nothing. Otherwise the code is upper-cased; an unknown book or an existing finish is reported with no change; else exactly one activity with the book's club code is appended, with the book's points when none or 0 is given and the given points otherwise; the club's board and then the all-clubs board are re-rendered; one finish per (guild, user, book) is kept |
| Commands.AwardedPoints | book_bot.py:163-164 | `if not points`: a given non-zero value is used, otherwise the book's points; so a finish scores 0 only when its book does |
| Views.Books | book_bot.py:172-202 | the bot's own messages are ignored; an unknown upper-cased club crashes; otherwise one field per distinct (book name, code, date) among the club's joined activities, and only those, each with its number of readers (at least one), newest book first as the newest-first rows put them into the dict (db.py:247) |
| Views.Users | book_bot.py:205-236 | the code is used as given; an unknown club crashes; otherwise one entry per user with a finish in the club, and only those, each listing that user's (code, points) in row order and their sum (the reference total), in non-increasing order of the sum |
| Views.BookPointsSumIsTotal | book_bot.py:221-222 | sum_book_points over a user's list equals their reference total |
| Views.LabelOf | book_bot.py:263 | partial iff points < book points; extra iff points > book points; otherwise the book's points; the number shown is always the finish's points |
| Views.UserInfo | book_bot.py:239-266 | no activity gives "No activities"; otherwise the finish count, the points (the user's total) and one line group per club, distinct and covering exactly the clubs of the finishes; the groups list every finish exactly once |
| Views.Score | book_bot.py:269-284 | the bot is ignored; with a club code, an unknown club crashes, otherwise the title is the club's name; without a code it is the guild's name; the rows are the first 20 of the scoreboard |
| Views.ScoreRowsShown | book_bot.py:280-282 | at most 20 distinct users, highest first, each with their summed selected points; with at most 20 such users all of them are shown |
| Views.BookInfo | book_bot.py:287-307 | an unknown upper-cased code is reported; otherwise the book's name, club, points and date, and the users who finished that code in this guild (a user is listed iff they have such a finish), one entry per finish: entry i is the user of the i-th activity row, as book_bot.py:300 joins them |
| Views.BookReadersDistinct | book_bot.py:299-305 | while a user finishes a book at most once, the listed readers are distinct users |

## Left out

- Discord I/O is reduced to the reply datatypes and the list of boards a
  command re-renders. This covers the bot client, `ctx.send`, `msg.edit`,
  fetching channels and messages, and the text of embeds.
- Member display names (`common.get_member`, and 'Unknown' for a missing
  member) are left out: a board line carries the user id.
- `common.has_role` is an input (`isAdmin`), and so is `ctx.author ==
  bot.user` (`fromBot`): `common` is not part of this model.
- `common.millify`, `make_ordinal`, `common.emoji` and `format_created_at`
  are left out; they only format text.
- The `MediaType` enum coercion in `namedtuple_factory` is left out: the
  media type is the enum's text.
- The SQLite connection and transactions are left out. Each statement is a
  single atomic change of the tables as this connection sees them. Every
  write but `delete_book` runs under `with self.conn:` and is committed at
  once; the two DELETEs of `delete_book` (db.py:210-221) stay in an open
  transaction until the next such block commits, so a restart before then
  loses them. The model does not capture that durability difference.
- `init_tables` and the DDL constants are left out, and so are the
  tables' primary keys. Inserts only append. The uniqueness the handlers
  keep is stated as invariants instead (`Db.BookCodesUnique`,
  `Db.OneFinishEach`).
- `_set_globals`, `on_ready` and the database file name are left out; they
  are configuration.
- `datetime.strptime` is left out: a given date is already a stamp, and a
  malformed date string is not modelled. This also covers `date.today()`,
  which is a parameter.
- IEEE floating point is left out: points and amounts are exact `real`s.
- BookBot.Upper: models the ASCII part of `str.upper()` only; other letters
  stay as they are.
- BookBot.Refresh: a code without a board message raises KeyError after the
  reply was sent. The model records this as a shorter list of boards.
- Queries.GuildLogs, Queries.LogsByUser, Queries.ClubBooks,
  Queries.ClubActivities, Queries.UserActivities, Queries.SortedTotals:
  contracts promise only the order SQL guarantees. Ties are not
  constrained.
- Views.Users, Views.UserInfo: two orders of the source are not stated.
  `sorted(..., reverse=True)` (book_bot.py:224-225) is stable, so users with
  equal sums keep their first-appearance order; the contract states only
  non-increasing sums. The club groups of `user` (book_bot.py:249-251,
  261-263) come in first-appearance order of the newest-first rows; the
  contract states which groups there are and what they hold, not their
  order.
- The rank is SQL `RANK()` as the query is written: ties share a rank and
  leave a gap. A dense rank is not what the code computes.
- The `users` value of the `book` view is a list of user ids, one per
  finish, rather than mention text.
- Queries.FindBook, Queries.FindClub: `get_book` and `get_club` paste the
  code into the SQL text (db.py:204, db.py:276-277). The model looks the code
  up by equality, which is what the query does for a code without a `'`.
  A code with a `'` is not modelled: SQLite then raises OperationalError
  (the handler sends nothing), or a crafted code rewrites the WHERE clause.
- Views.UserInfo: `user` passes its argument as text to a comparison with
  the INTEGER column. `UserId` stands for an argument that is a decimal
  numeral, which SQLite's type affinity compares as that number. Any other
  text, such as a mention `<@!123>`, matches no row and gets "No
  activities"; the model cannot express such an argument.
- Leaderboard.Window, Leaderboard.Board, Leaderboard.Standings,
  Leaderboard.StandingsFacts: neither the `scoreboard` CTE (db.py:104-121)
  nor the final SELECT of `get_leaderboard` has an ORDER BY; the
  `ORDER BY total DESC` at db.py:126 orders only the RANK() window. SQLite
  therefore promises no row order. The model sorts the grouped totals
  highest first and keeps that order through the window, and the
  "non-increasing" and "highest first" clauses of these contracts state
  that choice of the model, not a promise of SQLite.
- Db.Store.constructor: models opening a new database file. `Store` at
  book_bot.py:78 opens `prod.db` or `main.db`, whose tables may already hold
  rows; the other contracts hold for whatever rows the tables hold.

## Findings

| source | as written | input that shows it | evidently intended | confidence | as-written member | corrected member |
|---|---|---|---|---|---|---|
| book_bot.py:89-95 with db.py:281 | `get_club` returns `fetchall()[0]`, which raises IndexError when no club has the code. So new_club crashes on every new code, and it only ever reports existing clubs; it can never create one | an admin runs `new_club Novels NOVEL` on a store with no club coded NOVEL | an unknown code creates the club (`if club:` expects None for a missing club) | not executed | Commands.NewClub | Commands.NewClubAsIntended |
