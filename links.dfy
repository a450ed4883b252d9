/** Registering a profile link (`handle_link` in main_ru.py) and the
    `delete_<id>` callback data of the link list's buttons (built in
    `manage_links`, read back in `button_handler`). */
module Links {
  import opened Wrappers
  import opened Text

  const Host := "https://steamcommunity.com/"

  /** `\w` over ASCII: letters, digits and the underscore. */
  predicate IsWordChar(c: char) {
    ('a' <= c <= 'z') || ('A' <= c <= 'Z') || ('0' <= c <= '9') || c == '_'
  }

  predicate AllWord(s: string) {
    forall i :: 0 <= i < |s| ==> IsWordChar(s[i])
  }

  /** `[\w]+/?$` */
  predicate MatchesName(t: string) {
    if t != [] && t[|t| - 1] == '/' then t[..|t| - 1] != [] && AllWord(t[..|t| - 1])
    else t != [] && AllWord(t)
  }

  /** `(id|profiles)/[\w]+/?$` */
  predicate MatchesPath(t: string) {
    if |t| >= 3 && t[..3] == "id/" then MatchesName(t[3..])
    else |t| >= 9 && t[..9] == "profiles/" && MatchesName(t[9..])
  }

  /** `re.match(r'^https://steamcommunity\.com/(id|profiles)/[\w]+/?$', url)`:
      a matching URL starts with the host and has no surrounding whitespace. */
  predicate IsProfileUrl(url: string)
    ensures IsProfileUrl(url) ==> |url| > |Host| && url[..|Host|] == Host
    ensures IsProfileUrl(url) ==> !IsSpace(url[0]) && !IsSpace(url[|url| - 1])
  {
    |url| >= |Host| && url[..|Host|] == Host && MatchesPath(url[|Host|..])
  }

  /** Every host, kind, name and optional slash put together matches. */
  lemma ProfileUrlMatches(kind: string, name: string, slash: string)
    requires kind == "id" || kind == "profiles"
    requires name != [] && AllWord(name)
    requires slash == "" || slash == "/"
    ensures IsProfileUrl(Host + kind + "/" + name + slash)
  {
    var url := Host + kind + "/" + name + slash;
    var path := kind + "/" + name + slash;
    assert url[..|Host|] == Host && url[|Host|..] == path;
    assert !IsWordChar('/');
    if kind == "id" {
      assert path[..3] == "id/" && path[3..] == name + slash;
    } else {
      assert path[..3] != "id/" by { assert path[1] == 'r'; }
      assert path[..9] == "profiles/" && path[9..] == name + slash;
    }
    if slash == "/" {
      assert (name + slash)[..|name|] == name;
    } else {
      assert name + slash == name;
      assert name[|name| - 1] != '/' by { assert IsWordChar(name[|name| - 1]); }
    }
  }

  lemma MatchedNameParts(t: string) returns (name: string, slash: string)
    requires MatchesName(t)
    ensures name != [] && AllWord(name)
    ensures slash == "" || slash == "/"
    ensures t == name + slash
  {
    if t[|t| - 1] == '/' {
      name, slash := t[..|t| - 1], "/";
    } else {
      name, slash := t, "";
    }
  }

  lemma MatchedPathParts(t: string) returns (kind: string, name: string, slash: string)
    requires MatchesPath(t)
    ensures kind == "id" || kind == "profiles"
    ensures name != [] && AllWord(name)
    ensures slash == "" || slash == "/"
    ensures t == kind + "/" + name + slash
  {
    var rest: string;
    if |t| >= 3 && t[..3] == "id/" {
      kind, rest := "id", t[3..];
      assert t == t[..3] + rest;
    } else {
      kind, rest := "profiles", t[9..];
      assert t == t[..9] + rest;
    }
    name, slash := MatchedNameParts(rest);
  }

  /** Every matching URL is made of those parts, and nothing else. */
  lemma MatchedUrlParts(url: string) returns (kind: string, name: string, slash: string)
    requires IsProfileUrl(url)
    ensures kind == "id" || kind == "profiles"
    ensures name != [] && AllWord(name)
    ensures slash == "" || slash == "/"
    ensures url == Host + kind + "/" + name + slash
  {
    var path := url[|Host|..];
    assert url == url[..|Host|] + path;
    kind, name, slash := MatchedPathParts(path);
  }

  /** Links a user may track: 100 for premium users, 5 otherwise. */
  function LinkLimit(premium: bool): nat {
    if premium then 100 else 5
  }

  datatype Admission = Accepted(url: string) | BadFormat | LimitReached | AlreadyTracked

  /** `handle_link`'s checks on a message `text` from a user who already
      tracks `tracked`: the format of the trimmed text first, then the
      user's limit, then duplicates. */
  function Admit(text: string, tracked: seq<string>, premium: bool): (r: Admission)
    ensures r.Accepted? <==> IsProfileUrl(Strip(text)) && |tracked| < LinkLimit(premium) && Strip(text) !in tracked
    ensures r.Accepted? ==> r.url == Strip(text)
    ensures r == BadFormat <==> !IsProfileUrl(Strip(text))
  {
    var url := Strip(text);
    if !IsProfileUrl(url) then BadFormat
    else if |tracked| >= LinkLimit(premium) then LimitReached
    else if url in tracked then AlreadyTracked
    else Accepted(url)
  }

  /** A user at the limit is refused for the limit even when the link is a
      duplicate; a duplicate is reported only below the limit. */
  lemma LimitCheckedBeforeDuplicates(text: string, tracked: seq<string>, premium: bool)
    requires IsProfileUrl(Strip(text))
    ensures |tracked| >= LinkLimit(premium) ==> Admit(text, tracked, premium) == LimitReached
    ensures Admit(text, tracked, premium) == AlreadyTracked <==> |tracked| < LinkLimit(premium) && Strip(text) in tracked
  {
  }

  predicate NoDuplicates(urls: seq<string>) {
    forall i, j :: 0 <= i < j < |urls| ==> urls[i] != urls[j]
  }

  /** Adding every accepted link keeps a user's list free of duplicates and
      within the limit, and the stored URL has no surrounding whitespace. */
  lemma AdmittedListStaysValid(text: string, tracked: seq<string>, premium: bool)
    requires NoDuplicates(tracked) && |tracked| <= LinkLimit(premium)
    requires Admit(text, tracked, premium).Accepted?
    ensures var url := Admit(text, tracked, premium).url;
      && NoDuplicates(tracked + [url]) && |tracked + [url]| <= LinkLimit(premium)
      && Strip(url) == url
  {
  }

  /** Whitespace around a pasted link, of any length, is ignored. */
  lemma PaddedUrlAdmittedAsTrimmed(a: string, url: string, b: string, tracked: seq<string>, premium: bool)
    requires forall k :: 0 <= k < |a| ==> IsSpace(a[k])
    requires forall k :: 0 <= k < |b| ==> IsSpace(b[k])
    requires IsProfileUrl(url)
    ensures Admit(a + url + b, tracked, premium) == Admit(url, tracked, premium)
  {
    assert !IsSpace(url[0]) && !IsSpace(url[|url| - 1]);
    StripPadding(a, url, b);
    AdmitReadsStrippedText(a + url + b, tracked, premium);
    AdmitReadsStrippedText(url, tracked, premium);
    StripKeepsTrimmed(url);
  }

  /** `handle_link` looks only at the trimmed text: a message gets the same
      answer as its trimmed form. */
  lemma AdmitReadsStrippedText(x: string, tracked: seq<string>, premium: bool)
    ensures Admit(x, tracked, premium) == Admit(Strip(x), tracked, premium)
  {
    StripIdempotent(x);
  }

  // ----- Delete buttons -----

  /** The callback data of the delete button for link `id`: `f"delete_{id}"`,
      the prefix followed by the id's decimal digits. */
  function DeleteData(id: nat): (r: string)
    ensures |r| > 7 && r[..7] == "delete_" && AllDigits(r[7..])
  {
    "delete_" + NatToString(id)
  }

  /** The text up to the first underscore: `s.split("_")[0]`. */
  function UpToUnderscore(s: string): (r: string)
    ensures |r| <= |s| && r == s[..|r|] && '_' !in r
    ensures |r| < |s| ==> s[|r|] == '_'
  {
    if s == [] || s[0] == '_' then [] else [s[0]] + UpToUnderscore(s[1..])
  }

  datatype Callback = NotDelete | BadId | Delete(id: int)

  /** `button_handler`: data starting with "delete_" names the link id
      `int(data.split("_")[1])`; an id `int` cannot read is an error. */
  function ParseCallback(data: string): (r: Callback)
    ensures r != NotDelete <==> |data| >= 7 && data[..7] == "delete_"
  {
    if |data| >= 7 && data[..7] == "delete_" then
      match ParseInt(UpToUnderscore(data[7..]))
      case Some(id) => Delete(id)
      case None => BadId
    else NotDelete
  }

  /** A button's data reads back as the id it was built from. */
  lemma DeleteDataRoundTrip(id: nat)
    ensures ParseCallback(DeleteData(id)) == Delete(id)
  {
    var digits := NatToString(id);
    var data := DeleteData(id);
    assert data[..7] == "delete_" && data[7..] == digits;
    assert forall i :: 0 <= i < |digits| ==> digits[i] != '_';
    assert UpToUnderscore(digits) == digits;
    ParseIntOfNatToString(id);
  }

  lemma {:induction false} UpToUnderscoreStopsAtFirst(a: string, b: string)
    requires '_' !in a
    ensures UpToUnderscore(a + "_" + b) == a
  {
    if a != [] {
      assert (a + "_" + b)[1..] == a[1..] + "_" + b;
      UpToUnderscoreStopsAtFirst(a[1..], b);
    }
  }

  /** Text after a second underscore is ignored, as `split("_")[1]` does. */
  lemma TrailingFieldIgnored(id: nat, tail: string)
    ensures ParseCallback(DeleteData(id) + "_" + tail) == Delete(id)
  {
    var digits := NatToString(id);
    var data := DeleteData(id) + "_" + tail;
    assert data[..7] == "delete_" && data[7..] == digits + "_" + tail;
    assert forall i :: 0 <= i < |digits| ==> digits[i] != '_';
    UpToUnderscoreStopsAtFirst(digits, tail);
    ParseIntOfNatToString(id);
  }
}
