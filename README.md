# Steam profile tracker — a Dafny model of its decision logic

The tracker is a Telegram bot. Users send it Steam profile links. Every few
minutes it fetches each profile page, works out whether the account is in
game, under which nickname and with which online status, and tells the
link's owner what changed since the last check. This project models the
logic of `main_ru.py` that decides all of that:

- **Profile classification** (`profile.dfy`, module `Profile`). A fetched
  page is the record of what the tag lookups find on it: the private marker,
  the persona name, the header's `h1`, the in-game-state text, the in-game
  header and the in-game name. Each text is taken as `get_text(strip=True)`
  returns it. `ParseSteamProfile` and `GetAccountStatus` turn a fetch
  outcome into an error or a status. They are written step by step, as the
  source fills in its result dictionary.
- **Session and diff engine** (`changes.dfy`, module `Changes`). `Events`
  gives the ordered change lines for a link that already has a stored row,
  and `Differs` says whether a watched field changed. `SessionStart` derives
  the stored session start, and `Record` gives the row written back. `Diff`
  is the imperative comparison of `check_accounts`: it appends lines and
  raises the `changes` flag rule by rule, and it is proved equal to
  `Events` and `Differs`.
- **Check cycle and write-back** (`checker.dfy`, module `Checker`). The
  class `Tracker` holds the `account_statuses` table as a map from link id
  to row. `CheckAccounts` is the sequential loop over the links, and
  `CheckLink` is the loop body for one link. What the
  outside world does during one link's check is a `Probe` input: the status
  `get_account_status` returned, the clock, and whether the update message
  and the error report were delivered. `Cycle` is the left fold that
  specifies the loop, and the lemmas about it state per-link isolation and
  write-back.
- **Link admission and delete buttons** (`links.dfy`, module `Links`).
  `Admit` applies `handle_link`'s three checks in the source's order. The
  URL pattern `IsProfileUrl` is proved equivalent to "host + `id` or
  `profiles` + `/` + word characters + optional `/`". `DeleteData` and
  `ParseCallback` are the `delete_<id>` callback data and its reading,
  proved to round-trip.
- **String helpers** (`text.dfy`, module `Text`): `str.strip`,
  `str.lower`, `str(n)` and `int(s)`, over ASCII. `wrappers.dfy` holds
  `Option` and `Result`.

Times are whole seconds. The source reads `datetime.now()` several times
while checking one link; the model uses one clock value per link check.

The model follows the code as written. Some of its behaviour is easy to
misread:

- Session minutes are `timedelta.seconds // 60`, and `seconds` drops whole
  days: the reported value is `((now - start) mod 86400) div 60`
  (`SessionMinutes`, `SessionMinutesDropsDays`). A session longer than a day
  reports only the minutes beyond its whole days.
- The update message is sent before the row is written back. A failed send
  leaves the row untouched (`UndeliveredUpdateLeavesRow`), so the same
  change is found again in the next cycle.
- Private profiles, missing usernames and network failures all end as
  `None` from `get_account_status`. Such a link is skipped silently, with no
  failure notice to the owner, and the next link is checked
  (`SkippedLinkPassedOver`, `FailedCheckLeavesRow`).
- Links are checked one after another. If the error report after a failed
  send also fails, the exception reaches the cycle's outer handler and the
  remaining links are not checked this cycle (`Step`, `CycleCutShortIff`,
  `AbortedCycleStops`).
- The game name is stored whenever both game tags exist, even when the name
  is a placeholder and the account is not in game.

## Model

| member | source | states |
|---|---|---|
| `Profile.ParseSteamProfile` | main_ru.py:56-107 | Succeeds iff the fetch produced a page that is not private and has a persona name or header `h1`. A private page is a private-profile error whatever else it holds. The username is the persona name, else the `h1`. The online status is the lower-cased state text, else "offline". The game name is recorded iff both game tags exist. In game iff both exist and the name is not "", "steam" or "steam client" in any case. |
| `Profile.GetAccountStatus` | main_ru.py:109-122 | None exactly when parsing fails, in particular for a private page. Otherwise the parsed fields, with the session starting now iff in game and the check time now. |
| `Profile.IsPlaceholderGame` | main_ru.py:100 | Only names of 0, 5 or 12 characters ("", "steam", "steam client" in any letter case) are placeholders, and the empty name is one. |
| `Profile.PlaceholderIgnoresCase` | main_ru.py:100 | A name is a placeholder iff its lower-cased form is. |
| `Profile.SteamIsPlaceholder` | main_ru.py:100 | "Steam" counts as the placeholder "steam" after lower-casing. |
| `Profile.TitleIsNotPlaceholder` | main_ru.py:100 | A real title, even one beginning with "Steam", is not a placeholder. |
| `Changes.SessionMinutes` | main_ru.py:244-246 | The reported minutes lie in 0..1439, and equal the floor of the duration in minutes for sessions shorter than a day. |
| `Changes.SessionMinutesDropsDays` | main_ru.py:245-246 | A session of one day and 125 seconds is reported as 2 minutes. |
| `Changes.SessionMinutesPeriodic` | main_ru.py:245-246 | One more day of session leaves the reported minutes unchanged. |
| `Changes.Events` | main_ru.py:239-256 | The change lines come in the fixed order start/stop, duration, new game, new nickname, new status. Each kind appears at most once, so there are at most five lines, and any line means a watched field changed. |
| `Changes.Diff` | main_ru.py:236-256 | The appended lines are exactly `Events`, and `changes` is true iff in-game, game name, username or online status differ. |
| `Changes.ActivityEvents` | main_ru.py:240-246 | "Started playing" iff newly in game. "Stopped playing" iff no longer in game. A duration line iff stopping with a stored session start, carrying `SessionMinutes(start, now)`. |
| `Changes.FieldEvents` | main_ru.py:247-256 | A new-game line iff in game and the game name changed, carrying the new name. A new-nickname line iff the username changed. A new-status line iff the online status changed. Each carries the new value. |
| `Changes.NoChangeNoEvents` | main_ru.py:239-256 | Re-observing the stored fields gives no lines and no change. |
| `Changes.QuietGameNameChange` | main_ru.py:247-250 | A game-name change while not in game raises the flag but adds no line. |
| `Changes.SessionStart` | main_ru.py:258-264 | Given a consistent stored row, or none, the session start is set iff the account is in game. A set start is either now or the stored row's start while it was in game. |
| `Changes.Record` | main_ru.py:258-280 | The written row has the fetched watched fields, the derived session start and check time now. It is consistent whenever the stored row was. |
| `Changes.SessionContinuity` | main_ru.py:258-262 | In game before and now: the stored session start is kept. |
| `Changes.SessionReset` | main_ru.py:258-264 | Newly in game, or in game on the first check: the session starts now. |
| `Changes.StartPlayingExample` | main_ru.py:239-262 | Starting "Game X" and coming online gives start, new-game and status lines in that order, and the session starts now. |
| `Changes.StopPlayingExample` | main_ru.py:240-262 | Stopping 125 seconds after the session started gives a stop line and "2 minutes", and clears the session start. |
| `Changes.RenameExample` | main_ru.py:251-253 | Only the nickname changed: exactly one new-nickname line. |
| `Checker.Step` | main_ru.py:229-292 | Checking one link does nothing once the cycle is cut short, and a link whose status is None changes nothing. The step cuts the cycle short iff it was already cut short, or an update was due and both the update and the error report failed. No other link's row changes, and the link's own row is never removed. At most one message is added after those already delivered. An aborting step writes nothing. |
| `Checker.Cycle` | main_ru.py:227-292 | Over a whole cycle no row is removed, and each link yields at most one message. |
| `Checker.Tracker.CheckAccounts` | main_ru.py:225-292 | The table and the delivered messages after the loop are those of `Cycle`, and every row keeps "session start set iff in game". |
| `Checker.Tracker.CheckLink` | main_ru.py:229-289 | One pass of the loop body changes the table, the delivered messages and the abort flag exactly as `Step` says, and keeps every row consistent. |
| `Checker.CycleCutShortIff` | main_ru.py:228-292 | A cycle is cut short iff, for some link, the status was read, an update was due against the row stored before the cycle, and both the update and the error report failed. |
| `Checker.SkippedLinkPassedOver` | main_ru.py:228-234 | A link whose status is None is skipped: the cycle state after it equals the one before it, so the next link is checked. |
| `Checker.FailedCheckLeavesRow` | main_ru.py:228-234 | A link whose status is None keeps its row, or still has none, whatever happens to the other links. |
| `Checker.CheckedRowWrittenBack` | main_ru.py:258-282 | After a successful check that was not cut short, when nothing changed or the update was delivered, the row is `Record(previous row, fetched status, now)`. |
| `Checker.UndeliveredUpdateLeavesRow` | main_ru.py:266-289 | When a change could not be sent, the row is left as it was. |
| `Checker.UncheckedRowUntouched` | main_ru.py:227-282 | A row whose link is not in the cycle is unchanged. |
| `Checker.AbortedCycleStops` | main_ru.py:284-292 | Once the error report also fails, no later link is checked. |
| `Checker.FirstCheckIsSilent` | main_ru.py:263-266 | A link without a stored row gets no message and does not end the cycle. |
| `Checker.UpdateSentIffChanged` | main_ru.py:266-289 | A link with a stored row yields its change lines to its owner iff a watched field changed and the send succeeded, else the error report, else nothing. |
| `Checker.CycleKeepsConsistent` | main_ru.py:258-280 | A whole cycle keeps "session start set iff in game" for every row. |
| `Links.IsProfileUrl` | main_ru.py:141 | A matching URL starts with the host and has no surrounding whitespace. |
| `Links.ProfileUrlMatches` | main_ru.py:141 | Host, `id` or `profiles`, `/`, one or more word characters and an optional `/` always match. |
| `Links.MatchedUrlParts` | main_ru.py:141 | Every matching URL is exactly such a concatenation. |
| `Links.Admit` | main_ru.py:136-154 | Accepted iff the trimmed text matches, the user is below the limit (100 premium, else 5) and the URL is new; the accepted URL is the trimmed text; a bad format wins over everything. |
| `Links.LimitCheckedBeforeDuplicates` | main_ru.py:148-154 | At the limit the answer is "limit reached" even for a duplicate; "already tracked" only below the limit. |
| `Links.AdmittedListStaysValid` | main_ru.py:148-158 | Appending an accepted link keeps the user's list duplicate-free and within the limit. |
| `Links.PaddedUrlAdmittedAsTrimmed` | main_ru.py:139-141 | Any whitespace before and after a matching link, of any length, leaves the answer the same as for the bare link. |
| `Links.AdmitReadsStrippedText` | main_ru.py:139-154 | A message gets the same answer as its trimmed text. |
| `Links.DeleteData` | main_ru.py:194 | The data is "delete_" followed by at least one decimal digit and nothing else. |
| `Links.UpToUnderscore` | main_ru.py:211 | The field before the first `_`: a prefix of the text with no `_` in it, followed by a `_` or the end of the text. |
| `Links.ParseCallback` | main_ru.py:209-211 | Data is read as a deletion iff it starts with "delete_". |
| `Links.DeleteDataRoundTrip` | main_ru.py:194-211 | The data `delete_{id}` of a button reads back as `id`. |
| `Links.TrailingFieldIgnored` | main_ru.py:211 | Text after a second underscore is ignored, as `split("_")[1]` does. |
| `Text.Strip` | main_ru.py:139 | The result is a contiguous part of the input, everything before and after it is whitespace, and it neither starts nor ends with whitespace. |
| `Text.StripPadding` | main_ru.py:139 | Any whitespace around a text without surrounding whitespace is removed, and nothing else. |
| `Text.StripIdempotent` | main_ru.py:139 | Stripping twice is stripping once. |
| `Text.Lower` | main_ru.py:92 | Same length, each ASCII capital replaced by its small letter. |
| `Text.LowerIdempotent` | main_ru.py:92 | Lower-casing twice is lower-casing once. |
| `Text.NatToString` | main_ru.py:194 | Non-empty, decimal digits only, no leading zero except for 0. |
| `Text.ParseInt` | main_ru.py:211 | A number is read iff the trimmed text is one or more digits, optionally after one `+` or `-`. Digits read as their value, `+` keeps it and `-` negates it. |
| `Text.ParseIntNeedsDigit` | main_ru.py:211 | A text without a digit is an error. |
| `Text.ParseIntOfNatToString` | main_ru.py:211 | `int(str(n)) == n` for every non-negative `n`. |

## Left out

- The HTTP request (random User-Agent, `?rand=` parameter, 25-second timeout): its outcome is the input `Fetch`.
- BeautifulSoup's HTML parsing: a page is the record of what its lookups return.
- SQLAlchemy: the engine, the shared session and its commits. The table is the map `Tracker.statuses`. A failing commit, or a failing query of the link list, is not modelled.
- The Telegram handlers and their texts: `start`, the replies of `handle_link`, `send_status_update` (the first check after a link is added, which stores nothing), the keyboard of `manage_links`, and the deletion of the row in `button_handler` beyond reading its callback data. Messages are modelled as event kinds with their payload, without wording, emoji or `.capitalize()`.
- Creating the `users` row in `handle_link`: the user's premium flag and current links are inputs of `Admit`.
- The job-queue timing (every 300 s, first after 10 s) and `run_polling`.
- Logging, and the exact text of error messages: errors are the tags of `ParseError`.
- Unicode: `\w` is ASCII letters, digits and `_`. `lower()`, `strip()` and `int()` are modelled over ASCII only. Non-ASCII letters, whitespace (such as U+0085 or U+00A0) and digits are not handled as Python does. The ASCII whitespace that `strip()` removes is modelled in full, including U+001C..U+001F.
- Text.ParseInt: does not accept `_` between digits, which Python's `int()` does (`int("1_0") == 10`). Its only caller, `ParseCallback`, cuts the text at the first `_`, so no underscore reaches it.
- The several `datetime.now()` calls during one link's check are one clock value.
