/** The per-link comparison inside `check_accounts` (main_ru.py): which
    change lines are announced, whether anything changed, and when the
    current game session started. Messages are kept as events with their
    payload; the Russian wording and emoji are not modelled. */
module Changes {
  import opened Wrappers
  import opened Profile

  const SecondsPerDay := 86400

  /** `(now - start).seconds // 60`: `timedelta.seconds` is the part of the
      duration below one day, so whole days are dropped and a clock that
      went backwards wraps round into the same day. */
  function SessionMinutes(start: int, now: int): (m: int)
    ensures 0 <= m < 1440
    ensures 0 <= now - start < SecondsPerDay ==> m == (now - start) / 60
  {
    ((now - start) % SecondsPerDay) / 60
  }

  /** A session of a day and 125 seconds is reported as two minutes. */
  lemma SessionMinutesDropsDays(start: int)
    ensures SessionMinutes(start, start + SecondsPerDay + 125) == 2
  {
  }

  /** One more day of session changes nothing in the report, so together
      with the value for sessions under a day this fixes every report. */
  lemma SessionMinutesPeriodic(start: int, now: int)
    ensures SessionMinutes(start, now + SecondsPerDay) == SessionMinutes(start, now)
  {
    assert (now + SecondsPerDay) - start == (now - start) + SecondsPerDay;
  }

  /** One line of an update message. */
  datatype Event =
    | StartedPlaying
    | StoppedPlaying
    | SessionLasted(minutes: int)
    | NewGame(game: Option<string>)
    | NewNickname(name: string)
    | NewStatus(status: string)

  /** The position of each kind of line in a message. */
  function Rank(e: Event): nat {
    match e
    case StartedPlaying => 0
    case StoppedPlaying => 0
    case SessionLasted(_) => 1
    case NewGame(_) => 2
    case NewNickname(_) => 3
    case NewStatus(_) => 4
  }

  /** Lines appear in the fixed order of their kinds, each kind at most once. */
  ghost predicate InOrder(es: seq<Event>) {
    forall i, j :: 0 <= i < j < |es| ==> Rank(es[i]) < Rank(es[j])
  }

  /** The stored and the fetched status differ in a field the tracker watches. */
  predicate Differs(prev: Status, cur: Status) {
    prev.inGame != cur.inGame || prev.gameName != cur.gameName
    || prev.username != cur.username || prev.onlineStatus != cur.onlineStatus
  }

  function ActivityLines(prev: Status, cur: Status, now: int): seq<Event> {
    if prev.inGame == cur.inGame then []
    else if cur.inGame then [StartedPlaying]
    else if prev.sessionStart.Some? then [StoppedPlaying, SessionLasted(SessionMinutes(prev.sessionStart.value, now))]
    else [StoppedPlaying]
  }

  function GameLines(prev: Status, cur: Status): seq<Event> {
    if cur.gameName != prev.gameName && cur.inGame then [NewGame(cur.gameName)] else []
  }

  function NicknameLines(prev: Status, cur: Status): seq<Event> {
    if cur.username != prev.username then [NewNickname(cur.username)] else []
  }

  function StatusLines(prev: Status, cur: Status): seq<Event> {
    if cur.onlineStatus != prev.onlineStatus then [NewStatus(cur.onlineStatus)] else []
  }

  /** The lines announced for a link that already has a stored status: in
      the fixed order start/stop, duration, game, nickname, status, each
      kind at most once, and only when a watched field changed. */
  function Events(prev: Status, cur: Status, now: int): (r: seq<Event>)
    ensures InOrder(r) && |r| <= 5
    ensures r != [] ==> Differs(prev, cur)
  {
    ActivityLines(prev, cur, now) + GameLines(prev, cur) + NicknameLines(prev, cur) + StatusLines(prev, cur)
  }

  /** The comparison as `check_accounts` performs it, appending lines and
      raising the `changes` flag rule by rule. */
  method Diff(prev: Status, cur: Status, now: int) returns (messages: seq<Event>, changes: bool)
    ensures messages == Events(prev, cur, now)
    ensures changes <==> Differs(prev, cur)
  {
    messages := [];
    changes := false;
    if prev.inGame != cur.inGame {
      messages := messages + [if cur.inGame then StartedPlaying else StoppedPlaying];
      changes := true;
      if !cur.inGame && prev.sessionStart.Some? {
        messages := messages + [SessionLasted(SessionMinutes(prev.sessionStart.value, now))];
      }
    }
    if cur.gameName != prev.gameName {
      if cur.inGame {
        messages := messages + [NewGame(cur.gameName)];
      }
      changes := true;
    }
    if cur.username != prev.username {
      messages := messages + [NewNickname(cur.username)];
      changes := true;
    }
    if cur.onlineStatus != prev.onlineStatus {
      messages := messages + [NewStatus(cur.onlineStatus)];
      changes := true;
    }
  }

  /** The session start stored after a successful check: kept while the
      account stays in game, the check time when it has just started playing
      (or on the first check while playing), and absent when not in game. */
  function SessionStart(prev: Option<Status>, cur: Status, now: int): (r: Option<int>)
    ensures (prev.None? || Consistent(prev.value)) ==> (r.Some? <==> cur.inGame)
    ensures r.Some? ==> r == Some(now) || (prev.Some? && prev.value.inGame && r == prev.value.sessionStart)
  {
    if prev.Some? then
      if cur.inGame && prev.value.inGame then prev.value.sessionStart
      else if cur.inGame then Some(now) else None
    else if cur.inGame then Some(now) else None
  }

  /** A stored status has a session start exactly when it is in game. */
  predicate Consistent(s: Status) {
    s.sessionStart.Some? <==> s.inGame
  }

  /** The row written back after a successful check: the watched fields
      are the fetched ones, the check time is now, and a consistent stored
      row gives a consistent new one. */
  function Record(prev: Option<Status>, cur: Status, now: int): (r: Status)
    ensures !Differs(r, cur) && r.lastChecked == now
    ensures r.sessionStart == SessionStart(prev, cur, now)
    ensures (prev.None? || Consistent(prev.value)) ==> Consistent(r)
  {
    Status(cur.inGame, cur.gameName, cur.username, cur.onlineStatus, SessionStart(prev, cur, now), now)
  }

  // ----- Session tracking -----

  /** A session that goes on keeps its start time across checks. */
  lemma SessionContinuity(prev: Status, cur: Status, now: int)
    requires prev.inGame && cur.inGame
    ensures SessionStart(Some(prev), cur, now) == prev.sessionStart
  {
  }

  /** A session that starts now, or is first seen now, starts at the check time. */
  lemma SessionReset(prev: Option<Status>, cur: Status, now: int)
    requires cur.inGame && (prev.None? || !prev.value.inGame)
    ensures SessionStart(prev, cur, now) == Some(now)
  {
  }

  // ----- Change lines -----

  /** Re-observing the stored status announces nothing and changes nothing. */
  lemma NoChangeNoEvents(prev: Status, cur: Status, now: int)
    requires prev.inGame == cur.inGame && prev.gameName == cur.gameName
    requires prev.username == cur.username && prev.onlineStatus == cur.onlineStatus
    ensures Events(prev, cur, now) == [] && !Differs(prev, cur)
  {
  }

  /** A game-name change while not in game raises the flag without adding
      a line. */
  lemma QuietGameNameChange(prev: Status, cur: Status, now: int)
    requires !prev.inGame && !cur.inGame && prev.gameName != cur.gameName
    requires prev.username == cur.username && prev.onlineStatus == cur.onlineStatus
    ensures Differs(prev, cur) && Events(prev, cur, now) == []
  {
  }

  /** The start/stop lines and the duration line, each in both directions. */
  lemma ActivityEvents(prev: Status, cur: Status, now: int)
    ensures StartedPlaying in Events(prev, cur, now) <==> !prev.inGame && cur.inGame
    ensures StoppedPlaying in Events(prev, cur, now) <==> prev.inGame && !cur.inGame
    ensures forall m :: SessionLasted(m) in Events(prev, cur, now) <==>
      prev.inGame && !cur.inGame && prev.sessionStart.Some? && m == SessionMinutes(prev.sessionStart.value, now)
  {
  }

  /** The game, nickname and status lines, each in both directions. */
  lemma FieldEvents(prev: Status, cur: Status, now: int)
    ensures forall g :: NewGame(g) in Events(prev, cur, now) <==>
      cur.inGame && cur.gameName != prev.gameName && g == cur.gameName
    ensures forall u :: NewNickname(u) in Events(prev, cur, now) <==>
      cur.username != prev.username && u == cur.username
    ensures forall o :: NewStatus(o) in Events(prev, cur, now) <==>
      cur.onlineStatus != prev.onlineStatus && o == cur.onlineStatus
  {
  }

  // ----- The three worked examples -----

  /** Ann starts playing "Game X" and comes online: start, game and status
      lines in that order, and the session starts now. */
  lemma StartPlayingExample(now: int)
    ensures var prev := Status(false, None, "Ann", "offline", None, now - 300);
            var cur := Status(true, Some("Game X"), "Ann", "online", Some(now), now);
            && Events(prev, cur, now) == [StartedPlaying, NewGame(Some("Game X")), NewStatus("online")]
            && Differs(prev, cur)
            && SessionStart(Some(prev), cur, now) == Some(now)
  {
  }

  /** A session started at `t` and seen over at `t + 125` lasted two minutes,
      and the stored session start is cleared. */
  lemma StopPlayingExample(t: int)
    ensures var prev := Status(true, Some("Game X"), "Ann", "online", Some(t), t);
            var cur := Status(false, Some("Game X"), "Ann", "online", None, t + 125);
            && Events(prev, cur, t + 125) == [StoppedPlaying, SessionLasted(2)]
            && SessionStart(Some(prev), cur, t + 125) == None
  {
  }

  /** Only the nickname changed: exactly one line. */
  lemma RenameExample(now: int)
    ensures var prev := Status(false, None, "Ann", "offline", None, now - 300);
            var cur := Status(false, None, "Bob", "offline", None, now);
            Events(prev, cur, now) == [NewNickname("Bob")]
  {
  }
}
