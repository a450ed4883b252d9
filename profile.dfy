/** Classifying a fetched Steam profile page (`parse_steam_profile` and
    `get_account_status` in main_ru.py).

    The HTML itself is not modelled: a page is the record of what
    BeautifulSoup's lookups find on it, each text already as
    `get_text(strip=True)` returns it. The HTTP request is an input: it
    either produced a page or failed. */
module Profile {
  import opened Wrappers
  import opened Text

  /** What the tag lookups of `parse_steam_profile` find on a page. */
  datatype Page = Page(
    privateInfo: bool,              // a div.profile_private_info exists
    personaName: Option<string>,    // text of span.actual_persona_name
    headerName: Option<string>,     // text of the h1 inside div.profile_header_content,
                                    // None when the div or its h1 is missing
    inGameState: Option<string>,    // text of div.profile_in_game_state
    inGameHeader: bool,             // a div.profile_in_game_header exists
    inGameName: Option<string>)     // text of div.profile_in_game_name

  /** The outcome of the HTTP GET: a page, or a network, timeout or status error. */
  datatype Fetch = Fetched(page: Page) | FetchFailed

  /** Why a page yields no status; the source keeps only a message string. */
  datatype ParseError = PrivateProfile | MissingUsername | RequestFailed

  /** The result dictionary of a successful parse. */
  datatype ParsedProfile = ParsedProfile(username: string, inGame: bool, gameName: Option<string>, onlineStatus: string)

  /** An account_statuses row: the fields the tracker compares and stores.
      Times are whole seconds. */
  datatype Status = Status(
    inGame: bool,
    gameName: Option<string>,
    username: string,
    onlineStatus: string,
    sessionStart: Option<int>,
    lastChecked: int)

  /** Game names that do not count as playing, compared after lower-casing. */
  predicate IsPlaceholderGame(name: string): (r: bool)
    ensures r ==> |name| == 0 || |name| == 5 || |name| == 12
    ensures name == [] ==> r
  {
    Lower(name) in {"", "steam", "steam client"}
  }

  /** A page yields a profile when it is not private and a username can be found. */
  predicate Readable(fetch: Fetch) {
    fetch.Fetched? && !fetch.page.privateInfo
    && (fetch.page.personaName.Some? || fetch.page.headerName.Some?)
  }

  /** The fields a readable page yields: the username is the persona name,
      else the header's h1; the online status is the lower-cased
      in-game-state text, else "offline"; the game name is recorded whenever
      both game tags exist, but the account is in game only when that name
      is not a placeholder. */
  predicate ReadFrom(page: Page, username: string, onlineStatus: string, gameName: Option<string>, inGame: bool)
    requires page.personaName.Some? || page.headerName.Some?
  {
    && username == (if page.personaName.Some? then page.personaName.value else page.headerName.value)
    && onlineStatus == (if page.inGameState.Some? then Lower(page.inGameState.value) else "offline")
    && gameName == (if page.inGameHeader && page.inGameName.Some? then page.inGameName else None)
    && (inGame <==> page.inGameHeader && page.inGameName.Some? && !IsPlaceholderGame(page.inGameName.value))
  }

  /** `parse_steam_profile`: a failed request and the private marker win
      over everything else; a page without a username is an error; otherwise
      the fields are read as `ReadFrom` says. */
  method ParseSteamProfile(fetch: Fetch) returns (r: Result<ParsedProfile, ParseError>)
    ensures r.Ok? <==> Readable(fetch)
    ensures fetch.FetchFailed? ==> r == Err(RequestFailed)
    ensures fetch.Fetched? && fetch.page.privateInfo ==> r == Err(PrivateProfile)
    ensures fetch.Fetched? && !fetch.page.privateInfo && !Readable(fetch) ==> r == Err(MissingUsername)
    ensures r.Ok? ==> ReadFrom(fetch.page, r.value.username, r.value.onlineStatus, r.value.gameName, r.value.inGame)
  {
    if fetch.FetchFailed? {
      return Err(RequestFailed);
    }
    var page := fetch.page;
    var result := ParsedProfile("Unknown", false, None, "offline");

    if page.privateInfo {
      return Err(PrivateProfile);
    }

    if page.personaName.Some? {
      result := result.(username := page.personaName.value);
    } else if page.headerName.Some? {
      result := result.(username := page.headerName.value);
    } else {
      // `None.find('h1')` or `None.get_text()` raises, and the handler
      // turns the exception into an error result.
      return Err(MissingUsername);
    }

    if page.inGameState.Some? {
      result := result.(onlineStatus := Lower(page.inGameState.value));
    }

    if page.inGameHeader && page.inGameName.Some? {
      var gameName := page.inGameName.value;
      result := result.(gameName := Some(gameName));
      if !IsPlaceholderGame(gameName) {
        result := result.(inGame := true);
      }
    }

    return Ok(result);
  }

  /** `get_account_status`: any parse error becomes None; otherwise a row
      whose session starts now exactly when the account is in game. */
  method GetAccountStatus(fetch: Fetch, now: int) returns (s: Option<Status>)
    ensures s.Some? <==> Readable(fetch)
    ensures fetch.Fetched? && fetch.page.privateInfo ==> s.None?
    ensures s.Some? ==>
      && ReadFrom(fetch.page, s.value.username, s.value.onlineStatus, s.value.gameName, s.value.inGame)
      && s.value.sessionStart == (if s.value.inGame then Some(now) else None)
      && s.value.lastChecked == now
  {
    var data := ParseSteamProfile(fetch);
    if data.Err? {
      return None;
    }
    var p := data.value;
    return Some(Status(p.inGame, p.gameName, p.username, p.onlineStatus,
                       if p.inGame then Some(now) else None, now));
  }

  /** Letter case never matters to the placeholder test. */
  lemma PlaceholderIgnoresCase(name: string)
    ensures IsPlaceholderGame(name) <==> IsPlaceholderGame(Lower(name))
  {
    LowerIdempotent(name);
  }

  /** The placeholder test ignores letter case. */
  lemma SteamIsPlaceholder()
    ensures IsPlaceholderGame("Steam")
  {
    var a := Lower("Steam");
    assert LowerChar('S') == 's';
    assert a[0] == 's' && a[1] == 't' && a[2] == 'e' && a[3] == 'a' && a[4] == 'm';
    assert a == "steam";
  }

  /** A real title is not a placeholder, even one that starts like one. */
  lemma TitleIsNotPlaceholder()
    ensures !IsPlaceholderGame("Dota 2") && !IsPlaceholderGame("Steam Deck")
  {
  }
}
