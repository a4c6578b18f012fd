/** `Store` (db.py): the four tables and the statements that change them.
    Every insert appends a row; every delete keeps the other rows in order.
    The read-only queries are the functions of module Queries, applied to
    the tables held here. */
module Db {
  import opened Util
  import opened Calendar
  import opened Schema
  import opened Queries

  /** The subquery of delete_latest: the `created_at` of the newest (guild,
      user) log (`ORDER BY created_at DESC LIMIT 1`), or NULL without one. */
  function Latest(logs: seq<Log>, g: GuildId, u: UserId): Option<Stamp>
  {
    var newest := LogsByUser(logs, g, u);
    if newest == [] then None else Some(newest[0].createdAt)
  }

  /** The subquery is NULL exactly when the user has no log, and otherwise the
      newest `created_at` among the user's logs. */
  lemma LatestIsNewest(logs: seq<Log>, g: GuildId, u: UserId, r: Option<Stamp>)
    requires r == Latest(logs, g, u)
    ensures r.None? <==> forall l :: l in logs ==> !(l.guild == g && l.user == u)
    ensures r.Some? ==> exists l :: l in logs && l.guild == g && l.user == u && l.createdAt == r.value
    ensures r.Some? ==> forall l :: l in logs && l.guild == g && l.user == u ==> AtOrBefore(l.createdAt, r.value)
  {
    var newest := LogsByUser(logs, g, u);
    UserLogsMembers(logs, g, u, newest);
    if newest != [] {
      assert newest[0] in newest;
      forall l | l in newest ensures AtOrBefore(l.createdAt, newest[0].createdAt) {
        var k :| 0 <= k < |newest| && newest[k] == l;
        if k == 0 {
          AtOrBeforeTotal(l.createdAt, l.createdAt);
        }
      }
    }
  }

  /** A row is among the user's logs exactly when it is a (guild, user) log of the table. */
  lemma UserLogsMembers(logs: seq<Log>, g: GuildId, u: UserId, newest: seq<Log>)
    requires forall x :: multiset(newest)[x] == if x.guild == g && x.user == u then multiset(logs)[x] else 0
    ensures forall l :: l in newest <==> l in logs && l.guild == g && l.user == u
  {
    forall l ensures l in newest <==> l in logs && l.guild == g && l.user == u {
      assert l in newest <==> l in multiset(newest);
      assert l in logs <==> l in multiset(logs);
    }
  }

  /** The rows delete_latest removes: the user's logs stamped with the newest time. */
  predicate AtLatest(l: Log, g: GuildId, u: UserId, latest: Option<Stamp>)
  {
    l.guild == g && l.user == u && latest == Some(l.createdAt)
  }

  function KeepUnlessLatest(g: GuildId, u: UserId, latest: Option<Stamp>): Log -> bool
  {
    (l: Log) => !AtLatest(l, g, u, latest)
  }

  function IsLatest(g: GuildId, u: UserId, latest: Option<Stamp>): Log -> bool
  {
    (l: Log) => AtLatest(l, g, u, latest)
  }

  /** delete_user_logs keeps every row except the (guild, user) logs, and
      what it keeps and what it removes add up to the table. */
  lemma UserLogsRemoved(logs: seq<Log>, g: GuildId, u: UserId, kept: seq<Log>)
    requires kept == Filter(logs, NotOfUser(g, u))
    ensures forall x :: multiset(kept)[x] == if x.guild == g && x.user == u then 0 else multiset(logs)[x]
    ensures |kept| + |Filter(logs, OfUser(g, u))| == |logs|
  {
    var keep := NotOfUser(g, u);
    var drop := OfUser(g, u);
    assert forall x :: keep(x) == !drop(x);
    FilterComplement(logs, drop, keep);
    forall x ensures multiset(kept)[x] == if x.guild == g && x.user == u then 0 else multiset(logs)[x] {
      assert keep(x) == !(x.guild == g && x.user == u);
    }
  }

  /** delete_latest removes nothing exactly when the user has no log; what it
      keeps and what it removes add up to the table. `latest` is the
      subquery's value, as Latest describes it. */
  lemma DeleteLatestCount(logs: seq<Log>, g: GuildId, u: UserId, latest: Option<Stamp>, kept: seq<Log>, gone: seq<Log>)
    requires latest.None? <==> forall l :: l in logs ==> !(l.guild == g && l.user == u)
    requires latest.Some? ==> exists l :: l in logs && l.guild == g && l.user == u && l.createdAt == latest.value
    requires kept == Filter(logs, KeepUnlessLatest(g, u, latest))
    requires gone == Filter(logs, IsLatest(g, u, latest))
    ensures |kept| + |gone| == |logs|
    ensures |gone| == 0 <==> forall l :: l in logs ==> !(l.guild == g && l.user == u)
    ensures forall x :: multiset(kept)[x] == if AtLatest(x, g, u, latest) then 0 else multiset(logs)[x]
  {
    var keep := KeepUnlessLatest(g, u, latest);
    var drop := IsLatest(g, u, latest);
    assert forall x :: drop(x) == !keep(x);
    FilterComplement(logs, keep, drop);
    GoneIsLatest(logs, g, u, latest, gone);
    KeptUnlessLatest(logs, g, u, latest, kept);
  }

  /** Every row keeps its multiplicity unless it is one of the user's newest logs. */
  lemma KeptUnlessLatest(logs: seq<Log>, g: GuildId, u: UserId, latest: Option<Stamp>, kept: seq<Log>)
    requires kept == Filter(logs, KeepUnlessLatest(g, u, latest))
    ensures forall x :: multiset(kept)[x] == if AtLatest(x, g, u, latest) then 0 else multiset(logs)[x]
  {
    forall x ensures multiset(kept)[x] == if AtLatest(x, g, u, latest) then 0 else multiset(logs)[x] {
      assert KeepUnlessLatest(g, u, latest)(x) == !AtLatest(x, g, u, latest);
    }
  }

  /** Something is removed exactly when the user has a log. */
  lemma GoneIsLatest(logs: seq<Log>, g: GuildId, u: UserId, latest: Option<Stamp>, gone: seq<Log>)
    requires latest.None? <==> forall l :: l in logs ==> !(l.guild == g && l.user == u)
    requires latest.Some? ==> exists l :: l in logs && l.guild == g && l.user == u && l.createdAt == latest.value
    requires gone == Filter(logs, IsLatest(g, u, latest))
    ensures |gone| == 0 <==> forall l :: l in logs ==> !(l.guild == g && l.user == u)
  {
    if latest.Some? {
      var l :| l in logs && l.guild == g && l.user == u && l.createdAt == latest.value;
      FilterMember(logs, IsLatest(g, u, latest), l);
    } else if gone != [] {
      FilterMember(logs, IsLatest(g, u, latest), gone[0]);
    }
  }

  function OfUser(g: GuildId, u: UserId): Log -> bool
  {
    (l: Log) => l.guild == g && l.user == u
  }

  function NotOfUser(g: GuildId, u: UserId): Log -> bool
  {
    (l: Log) => !(l.guild == g && l.user == u)
  }

  function NotBook(g: GuildId, code: string): Book -> bool
  {
    (b: Book) => !(b.guild == g && b.code == code)
  }

  function NotOfBook(g: GuildId, code: string): Activity -> bool
  {
    (a: Activity) => !(a.guild == g && a.bookCode == code)
  }

  // ---- invariants the commands keep -------------------------------------------

  /** No two books share a code. get_book looks books up by code alone, so
      new_book keeps this across all guilds. */
  predicate BookCodesUnique(books: seq<Book>)
  {
    forall i, j :: 0 <= i < j < |books| ==> books[i].code != books[j].code
  }

  /** No two clubs share a code (get_club also ignores the guild). */
  predicate ClubCodesUnique(clubs: seq<Club>)
  {
    forall i, j :: 0 <= i < j < |clubs| ==> clubs[i].code != clubs[j].code
  }

  /** A user finishes a book of a guild at most once. */
  predicate OneFinishEach(acts: seq<Activity>)
  {
    forall i, j :: 0 <= i < j < |acts| ==>
      !(acts[i].guild == acts[j].guild && acts[i].user == acts[j].user && acts[i].bookCode == acts[j].bookCode)
  }

  class Store {
    var clubs: seq<Club>
    var books: seq<Book>
    var activities: seq<Activity>
    var logs: seq<Log>

    /** A store over freshly created tables. */
    constructor ()
      ensures clubs == [] && books == [] && activities == [] && logs == []
    {
      clubs := [];
      books := [];
      activities := [];
      logs := [];
    }

    /** new_club: appends the club row. */
    method NewClub(g: GuildId, name: string, code: string)
      modifies this
      ensures clubs == old(clubs) + [Club(g, code, name)]
      ensures books == old(books) && activities == old(activities) && logs == old(logs)
    {
      clubs := clubs + [Club(g, code, name)];
    }

    /** new_book: appends the book row. */
    method NewBook(g: GuildId, clubCode: string, name: string, code: string, points: real, createdAt: Stamp)
      modifies this
      ensures books == old(books) + [Book(g, name, code, clubCode, points, createdAt)]
      ensures clubs == old(clubs) && activities == old(activities) && logs == old(logs)
    {
      books := books + [Book(g, name, code, clubCode, points, createdAt)];
    }

    /** new_activity: appends the activity row. */
    method NewActivity(g: GuildId, u: UserId, clubCode: string, bookCode: string, points: real)
      modifies this
      ensures activities == old(activities) + [Activity(g, u, clubCode, bookCode, points)]
      ensures clubs == old(clubs) && books == old(books) && logs == old(logs)
    {
      activities := activities + [Activity(g, u, clubCode, bookCode, points)];
    }

    /** new_log: appends the log row; the media type is stored as its text. */
    method NewLog(g: GuildId, u: UserId, mediaType: string, amount: real, note: string, createdAt: Stamp)
      modifies this
      ensures logs == old(logs) + [Log(g, u, mediaType, amount, note, createdAt)]
      ensures clubs == old(clubs) && books == old(books) && activities == old(activities)
    {
      logs := logs + [Log(g, u, mediaType, amount, note, createdAt)];
    }

    /** delete_latest: removes every (guild, user) log stamped with that user's
        newest time, and returns how many went. */
    method DeleteLatest(g: GuildId, u: UserId) returns (n: nat)
      modifies this
      ensures logs == Filter(old(logs), KeepUnlessLatest(g, u, Latest(old(logs), g, u)))
      ensures forall x :: multiset(logs)[x] ==
                          if AtLatest(x, g, u, Latest(old(logs), g, u)) then 0 else multiset(old(logs))[x]
      ensures n == |Filter(old(logs), IsLatest(g, u, Latest(old(logs), g, u)))|
      ensures n == |old(logs)| - |logs|
      ensures n == 0 <==> forall l :: l in old(logs) ==> !(l.guild == g && l.user == u)
      ensures unchanged(this`clubs, this`books, this`activities)
    {
      var latest := Latest(logs, g, u);
      LatestIsNewest(logs, g, u, latest);
      var kept := Filter(logs, KeepUnlessLatest(g, u, latest));
      var gone := Filter(logs, IsLatest(g, u, latest));
      DeleteLatestCount(logs, g, u, latest, kept, gone);
      n := |gone|;
      logs := kept;
    }

    /** delete_user_logs: removes every log of (guild, user) and returns how many went. */
    method DeleteUserLogs(g: GuildId, u: UserId) returns (n: nat)
      modifies this
      ensures logs == Filter(old(logs), NotOfUser(g, u))
      ensures forall x :: multiset(logs)[x] == if x.guild == g && x.user == u then 0 else multiset(old(logs))[x]
      ensures n == |Filter(old(logs), OfUser(g, u))|
      ensures n == |old(logs)| - |logs|
      ensures clubs == old(clubs) && books == old(books) && activities == old(activities)
    {
      var kept := Filter(logs, NotOfUser(g, u));
      UserLogsRemoved(logs, g, u, kept);
      n := |logs| - |kept|;
      logs := kept;
    }

    /** delete_book: removes the book (guild, code) and every activity that names it. */
    method DeleteBook(g: GuildId, code: string)
      modifies this
      ensures books == Filter(old(books), NotBook(g, code))
      ensures activities == Filter(old(activities), NotOfBook(g, code))
      ensures forall x :: multiset(books)[x] == if x.guild == g && x.code == code then 0 else multiset(old(books))[x]
      ensures forall x :: multiset(activities)[x] ==
                          if x.guild == g && x.bookCode == code then 0 else multiset(old(activities))[x]
      ensures clubs == old(clubs) && logs == old(logs)
    {
      books := Filter(books, NotBook(g, code));
      activities := Filter(activities, NotOfBook(g, code));
    }
  }
}
