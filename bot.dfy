/** The command handlers of book_bot.py, as decisions over the store's tables.
    Chat I/O is reduced to what a handler would send: nothing, a crash (an
    exception escapes the handler), a fixed message, or the rows a view
    shows. Whether the author holds an admin role (`common.has_role`) and
    whether the author is the bot itself are inputs. The scoreboards that a
    command re-renders are returned with its reply. */
module BookBot {
  import opened Util
  import opened Calendar
  import opened Schema
  import opened Grouping
  import opened Queries

  // ---- codes ----------------------------------------------------------------

  function UpperChar(c: char): char
  {
    if 'a' <= c <= 'z' then (c as int - 32) as char else c
  }

  /** `str.upper()` on ASCII text: lower-case letters become capitals, nothing else changes. */
  function Upper(s: string): (r: string)
    ensures |r| == |s|
    ensures forall i :: 0 <= i < |r| ==> !('a' <= r[i] <= 'z')
    ensures forall i :: 0 <= i < |s| && !('a' <= s[i] <= 'z') ==> r[i] == s[i]
    ensures forall i :: 0 <= i < |s| && 'a' <= s[i] <= 'z' ==> r[i] as int == s[i] as int - 32 && 'A' <= r[i] <= 'Z'
  {
    seq(|s|, i requires 0 <= i < |s| => UpperChar(s[i]))
  }

  /** Upper-casing an upper-cased code changes nothing. */
  lemma UpperIdempotent(s: string)
    ensures Upper(Upper(s)) == Upper(s)
  {
    var once := Upper(s);
    assert forall i :: 0 <= i < |once| ==> UpperChar(once[i]) == once[i];
  }

  // ---- scoreboard messages (update_club_message) --------------------------------

  const VN3_BOARD := 1108098978878333009
  const VN4_BOARD := 1200062710231076974
  const MANGA_BOARD := 927651315595751424
  const NOVEL_BOARD := 927651316447215686
  const VIDYA_BOARD := 927651317143453756
  const JOSEI_BOARD := 927651317579649075
  const ALL_BOARD := 927651653472092161

  /** The keys of the `info` dict: the six clubs with a board, and None for the all-clubs board. */
  const BoardCodes: set<Option<string>> :=
    {Some("VN4"), Some("VN3"), Some("MANGA"), Some("NOVEL"), Some("VIDYA"), Some("JOSEI"), None}

  /** The `info` dict: the message that shows each club's board, and the
      all-clubs board under None. Any other code raises KeyError. */
  function BoardSlot(code: Option<string>): (r: Option<int>)
    ensures r.Some? <==> code in BoardCodes
  {
    if code == Some("VN4") then Some(VN4_BOARD)
    else if code == Some("VN3") then Some(VN3_BOARD)
    else if code == Some("MANGA") then Some(MANGA_BOARD)
    else if code == Some("NOVEL") then Some(NOVEL_BOARD)
    else if code == Some("VIDYA") then Some(VIDYA_BOARD)
    else if code == Some("JOSEI") then Some(JOSEI_BOARD)
    else if code == None then Some(ALL_BOARD)
    else None
  }

  /** Different codes render to different board messages. */
  lemma BoardSlotsDistinct(c1: Option<string>, c2: Option<string>)
    requires BoardSlot(c1).Some? && c1 != c2
    ensures BoardSlot(c1) != BoardSlot(c2)
  {
  }

  /** One line of a rendered board: the rank by position, the user, their points. */
  datatype Standing = Standing(rank: int, user: UserId, points: real)

  /** A re-rendered board message: the message it edits, its title, its lines
      and, for a club's board, its past picks (None: the content is empty). */
  datatype BoardView = BoardView(slot: int, title: string, standings: seq<Standing>, pastPicks: Option<seq<Book>>)

  /** The board's lines: the first ten scoreboard rows, ranked `i + 1` by position. */
  function TopLines(board: seq<UserPoints>): (r: seq<Standing>)
    ensures |r| == Min(10, |board|)
    ensures forall i :: 0 <= i < |r| ==> r[i] == Standing(i + 1, board[i].user, board[i].points)
  {
    var top := Take(board, 10);
    seq(|top|, i requires 0 <= i < |top| => Standing(i + 1, top[i].user, top[i].points))
  }

  /** update_club_message: the home guild's scoreboard for the code, its top
      ten ranked by position, and for a club up to fifty of its books, newest
      first. None is the KeyError of a code without a board message. */
  function BoardUpdate(books: seq<Book>, acts: seq<Activity>, home: GuildId, code: Option<string>): (r: Option<BoardView>)
    ensures r.None? <==> BoardSlot(code).None?
    ensures r.Some? ==> r.value.slot == BoardSlot(code).value
    ensures r.Some? ==> r.value.title == if Given(code) then code.value else "All"
    ensures r.Some? ==> r.value.standings == TopLines(Scoreboard(acts, home, code))
    ensures r.Some? ==> r.value.pastPicks == if Given(code) then Some(Take(ClubBooks(books, home, code.value), 50)) else None
  {
    match BoardSlot(code)
    case None => None
    case Some(slot) =>
      var title := if Given(code) then code.value else "All";
      var lines := TopLines(Scoreboard(acts, home, code));
      var picks := if Given(code) then Some(Take(ClubBooks(books, home, code.value), 50)) else None;
      Some(BoardView(slot, title, lines, picks))
  }

  /** A board shows the top of the scoreboard: at most ten users, ranked 1, 2,
      ... by position, highest points first, each with their summed points. */
  lemma BoardStandings(acts: seq<Activity>, home: GuildId, code: Option<string>, lines: seq<Standing>)
    requires lines == TopLines(Scoreboard(acts, home, code))
    ensures |lines| <= 10
    ensures forall i :: 0 <= i < |lines| ==> lines[i].rank == i + 1
    ensures forall i :: 0 <= i < |lines| ==>
      lines[i].points == KeyTotal(ScoreRows(acts, home, code), ActivityUser, ActivityPoints, lines[i].user)
    ensures forall i, j :: 0 <= i < j < |lines| ==> lines[i].points >= lines[j].points
    ensures forall i, j :: 0 <= i < j < |lines| ==> lines[i].user != lines[j].user
  {
  }

  /** A club's board lists at most fifty past picks, all of them the club's
      books in the home guild, newest first. */
  lemma BoardPastPicks(books: seq<Book>, home: GuildId, code: string, picks: seq<Book>)
    requires picks == Take(ClubBooks(books, home, code), 50)
    ensures |picks| <= 50
    ensures forall b :: b in picks ==> b in books && b.guild == home && b.clubCode == code
    ensures forall i, j :: 0 <= i < j < |picks| ==> AtOrBefore(picks[j].createdAt, picks[i].createdAt)
  {
    var all := ClubBooks(books, home, code);
    forall b | b in picks
      ensures b in books && b.guild == home && b.clubCode == code
    {
      TakeMember(all, 50, b);
      assert multiset(all)[b] > 0;
    }
  }

  /** The boards a handler re-renders in turn; the first code without a board
      message raises KeyError, which ends the handler there. */
  function Refresh(books: seq<Book>, acts: seq<Activity>, home: GuildId, codes: seq<Option<string>>): (r: seq<BoardView>)
    ensures |r| <= |codes|
    ensures forall i :: 0 <= i < |r| ==> BoardUpdate(books, acts, home, codes[i]) == Some(r[i])
    ensures |r| < |codes| ==> BoardSlot(codes[|r|]).None?
  {
    if codes == [] then []
    else
      var first := BoardUpdate(books, acts, home, codes[0]);
      if first.None? then []
      else
        var rest := Refresh(books, acts, home, codes[1..]);
        MatchesShift(c => BoardUpdate(books, acts, home, c), codes, first.value, rest);
        [first.value] + rest
  }

  /** Prepending a matched head to the matches of the tail shifts every index by one. */
  lemma MatchesShift<T, U>(f: T -> Option<U>, codes: seq<T>, v: U, rest: seq<U>)
    requires |codes| > 0 && f(codes[0]) == Some(v)
    requires |rest| <= |codes| - 1
    requires forall i :: 0 <= i < |rest| ==> f(codes[1..][i]) == Some(rest[i])
    requires |rest| < |codes| - 1 ==> f(codes[1..][|rest|]).None?
    ensures forall i :: 0 <= i < |rest| + 1 ==> f(codes[i]) == Some(([v] + rest)[i])
    ensures |rest| + 1 < |codes| ==> f(codes[|rest| + 1]).None?
  {
    forall i | 0 <= i < |rest| + 1
      ensures f(codes[i]) == Some(([v] + rest)[i])
    {
      if i > 0 {
        assert codes[i] == codes[1..][i - 1];
      }
    }
    if |rest| + 1 < |codes| {
      assert codes[|rest| + 1] == codes[1..][|rest|];
    }
  }

  /** When every code has a board message, every board is re-rendered. */
  lemma {:induction false} RefreshAll(books: seq<Book>, acts: seq<Activity>, home: GuildId, codes: seq<Option<string>>)
    requires forall i :: 0 <= i < |codes| ==> BoardSlot(codes[i]).Some?
    ensures |Refresh(books, acts, home, codes)| == |codes|
  {
    if codes != [] {
      assert BoardSlot(codes[0]).Some?;
      assert forall i :: 0 <= i < |codes[1..]| ==> codes[1..][i] == codes[i + 1];
      RefreshAll(books, acts, home, codes[1..]);
    }
  }

  /** update_info, run at start-up: every club board and then the all-clubs board. */
  const StartupCodes: seq<Option<string>> :=
    [Some("VN3"), Some("VN4"), Some("MANGA"), Some("NOVEL"), Some("VIDYA"), Some("JOSEI"), None]

  /** Every start-up code has a board message, so all seven are re-rendered. */
  lemma StartupRefreshesAll(books: seq<Book>, acts: seq<Activity>, home: GuildId)
    ensures |Refresh(books, acts, home, StartupCodes)| == 7
  {
    assert BoardSlot(Some("VN3")).Some?;
    assert BoardSlot(Some("VN4")).Some?;
    assert BoardSlot(Some("MANGA")).Some?;
    assert BoardSlot(Some("NOVEL")).Some?;
    assert BoardSlot(Some("VIDYA")).Some?;
    assert BoardSlot(Some("JOSEI")).Some?;
    assert BoardSlot(None).Some?;
    RefreshAll(books, acts, home, StartupCodes);
  }
}
