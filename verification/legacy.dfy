/** The older single-file Lutris-to-Sunshine script: its own Lutris listing,
    selection parsing, cover download and the loop that appends apps. */
module Legacy {
  import opened Wrappers
  import opened Text
  import opened Json
  import opened Covers
  import Lutris
  import Sunshine

  // ---------------------------------------------------------------- selection

  /** The indices the comma-separated parts name: each part that is all
      digits once stripped, minus one; other parts are dropped. */
  function PartNumbers(parts: seq<string>): (r: seq<int>)
    ensures |r| <= |parts|
  {
    if parts == [] then []
    else (match ParseInt(parts[0]) case Some(v) => [v - 1] case None => []) + PartNumbers(parts[1..])
  }

  /** A number is read exactly when some part is that number plus one. */
  lemma {:induction false} PartNumbersMembers(parts: seq<string>)
    ensures forall x :: x in PartNumbers(parts) <==> exists p :: p in parts && ParseInt(p).Some? && x == ParseInt(p).value - 1
    decreases |parts|
  {
    if parts != [] {
      PartNumbersMembers(parts[1..]);
      assert forall p :: p in parts <==> p == parts[0] || p in parts[1..];
    }
  }

  /** The indices in `0 .. n`, in order, duplicates kept. */
  function Bounded(xs: seq<int>, n: nat): (r: seq<nat>)
    ensures |r| <= |xs|
    ensures forall k :: 0 <= k < |r| ==> r[k] < n && r[k] as int in xs
  {
    if xs == [] then []
    else (if 0 <= xs[0] < n then [xs[0] as nat] else []) + Bounded(xs[1..], n)
  }

  /** Exactly the in-range numbers are kept. */
  lemma {:induction false} BoundedMembers(xs: seq<int>, n: nat)
    ensures forall x :: x in Bounded(xs, n) <==> x in xs && 0 <= x < n
    decreases |xs|
  {
    if xs != [] {
      BoundedMembers(xs[1..], n);
      assert forall x :: x in xs <==> x == xs[0] || x in xs[1..];
    }
  }

  /** The selection in `main` for `n` listed games: the "add all" number
      `n + 1` selects every game in order; otherwise the in-range indices of
      the numbered parts, in input order and with repetitions. */
  function LegacySelection(input: string, n: nat): (r: seq<nat>)
    ensures Strip(input) == NatToString(n + 1) ==> r == seq(n, k => k)
    ensures forall k :: 0 <= k < |r| ==> r[k] < n
  {
    if Strip(input) == NatToString(n + 1) then seq(n, k => k)
    else Bounded(PartNumbers(Split(input, ',')), n)
  }

  /** The numbers of the chosen games, as the user types them. */
  function Numbers(picks: seq<nat>): (r: seq<string>)
    ensures |r| == |picks|
    ensures forall k :: 0 <= k < |r| ==> r[k] == NatToString(picks[k] + 1)
  {
    if picks == [] then [] else [NatToString(picks[0] + 1)] + Numbers(picks[1..])
  }

  lemma {:induction false} NumbersRead(picks: seq<nat>, n: nat)
    requires forall k :: 0 <= k < |picks| ==> picks[k] < n
    ensures Bounded(PartNumbers(Numbers(picks)), n) == picks
    decreases |picks|
  {
    if picks != [] {
      NumbersFirst(picks);
      BoundedCons(picks[0], PartNumbers(Numbers(picks[1..])), n);
      NumbersRead(picks[1..], n);
    }
  }

  /** The first typed number is read back first. */
  lemma NumbersFirst(picks: seq<nat>)
    requires picks != []
    ensures PartNumbers(Numbers(picks)) == [picks[0] as int] + PartNumbers(Numbers(picks[1..]))
  {
    var parts := Numbers(picks);
    assert parts == [NatToString(picks[0] + 1)] + Numbers(picks[1..]);
    ParsedFirst(NatToString(picks[0] + 1), Numbers(picks[1..]), picks[0] + 1);
  }

  /** A part holding the digits of `v` is read as index `v - 1`. */
  lemma ParsedFirst(p: string, rest: seq<string>, v: nat)
    requires p == NatToString(v)
    ensures PartNumbers([p] + rest) == [v - 1] + PartNumbers(rest)
  {
    ParseIntOfString(v);
    assert ([p] + rest)[1..] == rest;
  }

  lemma BoundedCons(x: nat, rest: seq<int>, n: nat)
    requires x < n
    ensures Bounded([x as int] + rest, n) == [x] + Bounded(rest, n)
  {
    assert ([x as int] + rest)[1..] == rest;
  }

  /** Typing in-range game numbers separated by commas selects exactly
      those games, in that order and with any repetitions; a single number
      only counts as "add all" when it is `n + 1`, which no game has. */
  lemma SelectionRoundTrip(picks: seq<nat>, n: nat)
    requires picks != []
    requires forall k :: 0 <= k < |picks| ==> picks[k] < n
    ensures LegacySelection(JoinWith(Numbers(picks), ','), n) == picks
  {
    var parts := Numbers(picks);
    assert Split(JoinWith(parts, ','), ',') == parts by {
      forall k | 0 <= k < |parts|
        ensures ',' !in parts[k]
      {
        DigitsNoComma(parts[k]);
      }
      SplitJoin(parts, ',');
    }
    NotAll(picks, n);
    NumbersRead(picks, n);
  }

  lemma DigitsNoComma(s: string)
    requires IsDigits(s)
    ensures ',' !in s
  {
  }

  /** Typed game numbers are never the "add all" number. */
  lemma NotAll(picks: seq<nat>, n: nat)
    requires picks != []
    requires forall k :: 0 <= k < |picks| ==> picks[k] < n
    ensures Strip(JoinWith(Numbers(picks), ',')) != NatToString(n + 1)
  {
    var parts := Numbers(picks);
    var input := JoinWith(parts, ',');
    if |parts| == 1 {
      assert input == NatToString(picks[0] + 1);
      StripCharsKeeps(input, Whitespace);
      NatToStringValue(picks[0] + 1);
      NatToStringValue(n + 1);
    } else {
      assert input == parts[0] + [','] + JoinWith(parts[1..], ',');
      assert input[|parts[0]|] == ',';
      NoCommaInDigits(input);
    }
  }

  /** Text holding a comma never strips to a decimal number. */
  lemma NoCommaInDigits(s: string)
    requires ',' in s
    ensures !IsDigits(Strip(s))
  {
    var t := Strip(s);
    StripCharsKeepsOthers(s, Whitespace, ',');
    var i :| 0 <= i < |t| && t[i] == ',';
    assert !IsDigit(t[i]);
  }

  /** Repeating a number selects that game again. */
  lemma RepeatsKept(n: nat)
    requires n >= 1
    ensures LegacySelection("1,1", n) == [0, 0]
  {
    assert "1,1" == JoinWith(Numbers([0, 0]), ',') by {
      assert NatToString(1) == "1";
      assert Numbers([0, 0]) == ["1", "1"];
    }
    SelectionRoundTrip([0, 0], n);
  }

  // ---------------------------------------------------------------- lutris

  /** The game list of the legacy listing, once the command succeeded and its
      output was decoded: every element must be an object with an id and a
      name; iterating a non-empty object or string yields strings, which
      cannot be subscripted by name, and any other value cannot be iterated. */
  function LegacyPairs(games: JValue): (r: Result<seq<(JValue, JValue)>>)
    ensures games.JArr? ==> r == Lutris.Pairs(games.items)
    ensures !games.JArr? ==> (r.Ok? <==> games == JObj([]) || games == JStr([]))
    ensures r.Ok? && !games.JArr? ==> r.value == []
  {
    match games
    case JArr(xs) => Lutris.Pairs(xs)
    case JObj(fields) => if fields == [] then Ok([]) else Err("TypeError")
    case JStr(s) => if s == [] then Ok([]) else Err("TypeError")
    case _ => Err("TypeError")
  }

  /** `list_lutris_games` of the legacy script: no games when Lutris is not
      installed or the command fails; output that does not decode raises. */
  function LegacyListLutris(flatpakFound: bool, nativeFound: bool, run: string -> CommandResult,
                            decode: string -> Option<JValue>): (r: Result<seq<(JValue, JValue)>>)
    ensures !flatpakFound && !nativeFound ==> r == Ok([])
    ensures (flatpakFound || nativeFound) && run(Lutris.Base(flatpakFound) + " -lo --json").returncode != 0 ==> r == Ok([])
    ensures (flatpakFound || nativeFound) && run(Lutris.Base(flatpakFound) + " -lo --json").returncode == 0 ==>
      (r.Err? <==>
        decode(run(Lutris.Base(flatpakFound) + " -lo --json").stdout).None? ||
        LegacyPairs(decode(run(Lutris.Base(flatpakFound) + " -lo --json").stdout).value).Err?)
    ensures r.Ok? && (flatpakFound || nativeFound) && run(Lutris.Base(flatpakFound) + " -lo --json").returncode == 0 ==>
      r == LegacyPairs(decode(run(Lutris.Base(flatpakFound) + " -lo --json").stdout).value)
  {
    if !flatpakFound && !nativeFound then Ok([])
    else
      var result := run(Lutris.Base(flatpakFound) + " -lo --json");
      if result.returncode != 0 then Ok([])
      else match decode(result.stdout)
        case None => Err("JSONDecodeError")
        case Some(v) => LegacyPairs(v)
  }

  /** When Lutris prints a list, the legacy and the current listings agree. */
  lemma ListingsAgree(flatpakFound: bool, nativeFound: bool, run: string -> CommandResult,
                      decode: string -> Option<JValue>)
    requires flatpakFound || nativeFound
    requires decode(run(Lutris.ListingCommand(flatpakFound, nativeFound)).stdout).Some?
    requires decode(run(Lutris.ListingCommand(flatpakFound, nativeFound)).stdout).value.JArr?
    ensures LegacyListLutris(flatpakFound, nativeFound, run, decode) == Lutris.ListLutrisGames(flatpakFound, nativeFound, run, decode)
  {
    Lutris.NoArguments(flatpakFound, nativeFound);
  }

  // ---------------------------------------------------------------- covers

  /** The outcome of one HTTP request: an exception, or a status and, for
      the JSON requests, the decoded body. */
  datatype Http = Unreachable | Response(status: int, body: JValue)

  /** `download_image_from_steamgriddb` of the legacy script. There is no
      cache check and no exception handling: a request that raises, or a
      reply of an unexpected shape, is an error. Any status but 200, and an
      empty result list, give the default image. */
  function LegacyCover(title: string, coversDir: string, get: string -> Http, fetchImage: string -> Http): (r: Result<string>)
    ensures r.Ok? ==> r.value == CachePath(coversDir, title) || r.value == DefaultImage
    ensures get(SearchBase + title).Response? && get(SearchBase + title).status != 200 ==> r == Ok(DefaultImage)
    ensures get(SearchBase + title).Unreachable? ==> r.Err?
  {
    match get(SearchBase + title)
    case Unreachable => Err("RequestException")
    case Response(status, search) =>
      if status != 200 then Ok(DefaultImage)
      else match Data(search)
        case Err(e) => Err(e)
        case Ok(results) =>
          if !Truthy(results) then Ok(DefaultImage)
          else match Path(results, [Index(0), Name("id")])
            case Err(e) => Err(e)
            case Ok(gameId) => LegacyGridCover(title, coversDir, get, fetchImage, gameId)
  }

  /** The second half of the legacy download, once the search gave an id:
      the grid request, then the image download. */
  function LegacyGridCover(title: string, coversDir: string, get: string -> Http, fetchImage: string -> Http,
                           gameId: JValue): (r: Result<string>)
    ensures r.Ok? ==> r.value == CachePath(coversDir, title) || r.value == DefaultImage
    ensures get(GridBase + PyStr(gameId)).Response? && get(GridBase + PyStr(gameId)).status != 200 ==> r == Ok(DefaultImage)
    ensures get(GridBase + PyStr(gameId)).Unreachable? ==> r.Err?
  {
    match get(GridBase + PyStr(gameId))
    case Unreachable => Err("RequestException")
    case Response(gridStatus, grid) =>
      if gridStatus != 200 then Ok(DefaultImage)
      else match Data(grid)
        case Err(e) => Err(e)
        case Ok(grids) =>
          if !Truthy(grids) then Ok(DefaultImage)
          else match Path(grids, [Index(0), Name("url")])
            case Err(e) => Err(e)
            case Ok(url) =>
              match fetchImage(PyStr(url))
              case Unreachable => Err("RequestException")
              case Response(imageStatus, _) =>
                if imageStatus != 200 then Ok(DefaultImage) else Ok(CachePath(coversDir, title))
  }

  /** When every request answers 200 with a result, the cover is the file
      named after the title. */
  lemma LegacyCoverFetched(title: string, coversDir: string, get: string -> Http, fetchImage: string -> Http,
                           id: JValue, url: string, image: JValue)
    requires get(SearchBase + title) == Response(200, Found(id))
    requires get(GridBase + PyStr(id)) == Response(200, Grid(url))
    requires fetchImage(url) == Response(200, image)
    ensures LegacyCover(title, coversDir, get, fetchImage) == Ok(CachePath(coversDir, title))
  {
    FoundId(id);
    assert LegacyCover(title, coversDir, get, fetchImage) == LegacyGridCover(title, coversDir, get, fetchImage, id);
    GridUrl(url);
  }

  /** A grid request, or the image download, answered with any status but
      200 gives the default image. */
  lemma LegacyCoverRefused(title: string, coversDir: string, get: string -> Http, fetchImage: string -> Http,
                           id: JValue, url: string)
    requires get(SearchBase + title) == Response(200, Found(id))
    requires (get(GridBase + PyStr(id)).Response? && get(GridBase + PyStr(id)).status != 200) ||
      (get(GridBase + PyStr(id)) == Response(200, Grid(url)) &&
       fetchImage(url).Response? && fetchImage(url).status != 200)
    ensures LegacyCover(title, coversDir, get, fetchImage) == Ok(DefaultImage)
  {
    FoundId(id);
    assert LegacyCover(title, coversDir, get, fetchImage) == LegacyGridCover(title, coversDir, get, fetchImage, id);
    GridUrl(url);
  }

  /** A search or grid reply without results gives the default image. */
  lemma LegacyCoverEmpty(title: string, coversDir: string, get: string -> Http, fetchImage: string -> Http, id: JValue)
    requires get(SearchBase + title) == Response(200, JObj([("data", JArr([]))])) ||
      (get(SearchBase + title) == Response(200, Found(id)) &&
       get(GridBase + PyStr(id)) == Response(200, JObj([("data", JArr([]))])))
    ensures LegacyCover(title, coversDir, get, fetchImage) == Ok(DefaultImage)
  {
    FoundId(id);
  }

  // ---------------------------------------------------------------- apps file

  /** `load_sunshine_apps` of the legacy script: a missing file yields the
      default configuration; a malformed one raises. */
  function LegacyLoadApps(state: FileState): (r: Result<JValue>)
    ensures state.Missing? ==> r == Ok(Sunshine.DefaultApps)
    ensures state.Malformed? <==> r.Err?
    ensures state.Decoded? ==> r == Ok(state.value)
  {
    match state
    case Missing => Ok(Sunshine.DefaultApps)
    case Malformed => Err("JSONDecodeError")
    case Decoded(v) => Ok(v)
  }

  /** The legacy and current loaders agree on every file that is not malformed. */
  lemma LoadersAgree(state: FileState)
    requires !state.Malformed?
    ensures LegacyLoadApps(state) == Ok(Sunshine.LoadSunshineApps(state))
  {
  }

  // ---------------------------------------------------------------- main

  const RunGameId: string := "lutris:rungameid/"

  /** The environment prefix that skips Lutris' start-up checks. */
  const SkipInit: string := "env LUTRIS_SKIP_INIT=1 "

  /** The launch command of the legacy script; Flatpak when its probe succeeds. */
  function LegacyCommand(flatpakFound: bool, id: JValue): (r: string)
    ensures StartsWith(r, SkipInit)
  {
    SkipInit + (Lutris.Base(flatpakFound) + " " + (RunGameId + PyStr(id)))
  }

  /** The legacy command is the current Lutris command for the game's
      `lutris:rungameid` argument, run with Lutris' start-up checks skipped. */
  lemma CommandsAgree(flatpakFound: bool, id: JValue)
    requires PyStr(id) == [] || PyStr(id)[|PyStr(id)| - 1] !in Whitespace
    ensures LegacyCommand(flatpakFound, id) ==
      SkipInit + Lutris.LutrisCommand(flatpakFound, true, RunGameId + PyStr(id)).value
  {
    var args := RunGameId + PyStr(id);
    assert args[0] == 'l';
    assert args[|args| - 1] == (if PyStr(id) == [] then '/' else PyStr(id)[|PyStr(id)| - 1]);
    Lutris.PlainArguments(flatpakFound, true, args);
  }

  /** The app record the legacy loop appends. */
  function LegacyApp(name: JValue, cmd: string, image: string): JValue {
    JObj([("name", name), ("cmd", JStr(cmd)), ("image-path", JStr(image)),
          ("auto-detach", JStr("true")), ("wait-all", JStr("true")), ("exit-timeout", JStr("5"))])
  }

  /** The selected games whose names are not in `existing`, in order. */
  function Kept(selected: seq<(JValue, JValue)>, existing: seq<JValue>): (r: seq<(JValue, JValue)>)
    ensures |r| <= |selected|
    ensures forall k :: 0 <= k < |r| ==> r[k] in selected && r[k].1 !in existing
  {
    if selected == [] then []
    else (if selected[0].1 in existing then [] else [selected[0]]) + Kept(selected[1..], existing)
  }

  /** A game is kept exactly when it is selected and its name is not taken. */
  lemma {:induction false} KeptMembers(selected: seq<(JValue, JValue)>, existing: seq<JValue>)
    ensures forall g :: g in Kept(selected, existing) <==> g in selected && g.1 !in existing
    decreases |selected|
  {
    if selected != [] {
      KeptMembers(selected[1..], existing);
      assert forall g :: g in selected <==> g == selected[0] || g in selected[1..];
    }
  }

  /** The app for one game, or the error its cover download raised. */
  function AppFor(game: (JValue, JValue), flatpakFound: bool, image: JValue -> Result<string>): (r: Result<JValue>)
    ensures r.Ok? <==> image(game.1).Ok?
    ensures r.Ok? ==> r.value == LegacyApp(game.1, LegacyCommand(flatpakFound, game.0), image(game.1).value)
  {
    match image(game.1)
    case Err(e) => Err(e)
    case Ok(path) => Ok(LegacyApp(game.1, LegacyCommand(flatpakFound, game.0), path))
  }

  /** The apps for the given games, in order, or the first error a cover
      download raised. */
  function NewApps(games: seq<(JValue, JValue)>, flatpakFound: bool, image: JValue -> Result<string>): (r: Result<seq<JValue>>)
    ensures r.Ok? <==> forall k :: 0 <= k < |games| ==> image(games[k].1).Ok?
    ensures r.Ok? ==> (|r.value| == |games| &&
      forall k :: 0 <= k < |games| ==> AppFor(games[k], flatpakFound, image) == Ok(r.value[k]))
  {
    if games == [] then Ok([])
    else match AppFor(games[0], flatpakFound, image)
      case Err(e) => Err(e)
      case Ok(app) =>
        match NewApps(games[1..], flatpakFound, image)
        case Err(e) => Err(e)
        case Ok(apps) =>
          assert forall k :: 0 < k < |games| ==> games[k] == games[1..][k - 1];
          Ok([app] + apps)
  }

  /** The append loop of `main`: each selected game not named in the
      snapshot `existing` gets one app at the end of `apps`; the earlier
      apps stay in place. */
  function AppendSelected(apps: seq<JValue>, existing: seq<JValue>, selected: seq<(JValue, JValue)>,
                          flatpakFound: bool, image: JValue -> Result<string>): (r: Result<seq<JValue>>)
    ensures r.Ok? ==> |r.value| == |apps| + |Kept(selected, existing)|
    ensures r.Ok? <==> NewApps(Kept(selected, existing), flatpakFound, image).Ok?
    ensures r.Ok? ==> r.value == apps + NewApps(Kept(selected, existing), flatpakFound, image).value
    ensures r.Ok? ==> r.value[..|apps|] == apps
    ensures r.Ok? ==> forall k :: 0 <= k < |Kept(selected, existing)| ==>
      AppFor(Kept(selected, existing)[k], flatpakFound, image) == Ok(r.value[|apps| + k])
  {
    match NewApps(Kept(selected, existing), flatpakFound, image)
    case Err(e) => Err(e)
    case Ok(added) =>
      assert (apps + added)[..|apps|] == apps;
      Ok(apps + added)
  }

  /** The names of the configured apps, or the error reading one raises. */
  function AppNames(apps: seq<JValue>): (r: Result<seq<JValue>>)
    ensures r.Ok? ==> |r.value| == |apps| && forall k :: 0 <= k < |apps| ==> Subscript(apps[k], Name("name")) == Ok(r.value[k])
  {
    if apps == [] then Ok([])
    else match Subscript(apps[0], Name("name"))
      case Err(e) => Err(e)
      case Ok(name) =>
        match AppNames(apps[1..])
        case Err(e) => Err(e)
        case Ok(rest) => Ok([name] + rest)
  }

  /** What a run of `main` leaves behind: the configuration it saved, if it
      got that far, the API key it wrote, if any, and the exception that
      ended it, if one did. A key written before the exception stays
      written. */
  datatype Outcome = Outcome(saved: Option<JValue>, keyWritten: Option<string>, raised: Option<string>)

  /** The inputs of one run of `main`: probes, answers and file states. */
  datatype Run = Run(
    lutrisRunning: bool,
    flatpakFound: bool,
    answer: string,
    storedKey: Option<string>,
    keyInput: string,
    games: Result<seq<(JValue, JValue)>>,
    appsFile: FileState,
    selection: string)

  /** Whether covers are downloaded: the answer was "y" and a key was had. */
  predicate Downloads(run: Run) {
    Lower(Strip(run.answer)) == "y" && ApiKey(run) != []
  }

  /** The API key in use after the prompts: the stored one when it is not
      empty, else the one typed in; none unless the answer was "y". */
  function ApiKey(run: Run): string {
    if Lower(Strip(run.answer)) != "y" then []
    else match run.storedKey
      case Some(k) => if Strip(k) != [] then Strip(k) else Strip(run.keyInput)
      case None => Strip(run.keyInput)
  }

  /** The image for a game: a downloaded cover only when covers are
      downloaded, else the default image. */
  function ImageFor(run: Run, cover: JValue -> Result<string>): (f: JValue -> Result<string>)
    ensures forall name :: !Downloads(run) ==> f(name) == Ok(DefaultImage)
  {
    (name: JValue) => if Downloads(run) then cover(name) else Ok(DefaultImage)
  }

  /** `main` of the legacy script. A running Lutris stops it before any
      file is read or written. The key file is written only when the answer
      was "y" and no non-empty key was stored, and it is written before the
      games are listed, so it stays written whatever fails later. Nothing
      is saved when no game is listed. Otherwise the apps of the selected
      games not already configured are appended and the configuration is
      saved. `cover` stands for downloading a cover. */
  function LegacyMain(run: Run, cover: JValue -> Result<string>): (r: Outcome)
    ensures run.lutrisRunning ==> r == Outcome(None, None, None)
    ensures r.keyWritten.Some? <==>
      (!run.lutrisRunning && Lower(Strip(run.answer)) == "y" &&
       (run.storedKey.None? || Strip(run.storedKey.value) == []))
    ensures r.keyWritten.Some? ==> r.keyWritten.value == Strip(run.keyInput)
    ensures r.saved.Some? ==> r.raised.None? && run.games.Ok? && run.games.value != []
    ensures !run.lutrisRunning && run.games.Err? ==> r.raised == Some(run.games.reason) && r.saved.None?
    ensures !run.lutrisRunning && run.games == Ok([]) ==> r.raised.None? && r.saved.None?
    ensures !run.lutrisRunning && run.games.Ok? && run.games.value != [] ==>
      (r.saved.Some? <==> Saved(run, run.games.value, cover).Ok?) &&
      (r.saved.Some? ==> r.saved.value == Saved(run, run.games.value, cover).value) &&
      (r.raised.Some? <==> Saved(run, run.games.value, cover).Err?)
  {
    if run.lutrisRunning then Outcome(None, None, None)
    else
      var stored := if run.storedKey.Some? then Strip(run.storedKey.value) else [];
      var keyWritten := if Lower(Strip(run.answer)) == "y" && stored == [] then Some(Strip(run.keyInput)) else None;
      match run.games
      case Err(e) => Outcome(None, keyWritten, Some(e))
      case Ok(games) =>
        if games == [] then Outcome(None, keyWritten, None)
        else match Saved(run, games, cover)
          case Err(e) => Outcome(None, keyWritten, Some(e))
          case Ok(data) => Outcome(Some(data), keyWritten, None)
  }

  /** The games the typed selection asks for, in the order asked; the
      "all" choice asks for every game. */
  function SelectedGames(selection: string, games: seq<(JValue, JValue)>): (r: seq<(JValue, JValue)>)
    ensures Strip(selection) == NatToString(|games| + 1) ==> r == games
    ensures |r| == |LegacySelection(selection, |games|)|
    ensures forall k :: 0 <= k < |r| ==> r[k] == games[LegacySelection(selection, |games|)[k]]
  {
    seq(|LegacySelection(selection, |games|)|,
      k requires 0 <= k < |LegacySelection(selection, |games|)| => games[LegacySelection(selection, |games|)[k]])
  }

  /** The configuration `main` saves for a non-empty game list: the loaded
      one with an app appended for every selected game whose name is not
      yet configured, its earlier apps and other members as they were. It
      raises when the file is malformed, its `apps` is not a list, an app
      has no readable `name`, or a cover download raises. */
  function Saved(run: Run, games: seq<(JValue, JValue)>, cover: JValue -> Result<string>): (r: Result<JValue>)
    ensures r.Err? <==>
      (LegacyLoadApps(run.appsFile).Err? ||
       Sunshine.Apps(LegacyLoadApps(run.appsFile).value).Err? ||
       AppNames(Sunshine.Apps(LegacyLoadApps(run.appsFile).value).value).Err? ||
       NewApps(Kept(SelectedGames(run.selection, games), AppNames(Sunshine.Apps(LegacyLoadApps(run.appsFile).value).value).value),
               run.flatpakFound, ImageFor(run, cover)).Err?)
    ensures r.Ok? ==> LegacyLoadApps(run.appsFile).Ok? && Sunshine.Apps(LegacyLoadApps(run.appsFile).value).Ok?
    ensures r.Ok? ==> Sunshine.Apps(r.value).Ok?
    ensures r.Ok? ==> forall key :: key != "apps" ==> Get(r.value, key) == Get(LegacyLoadApps(run.appsFile).value, key)
    ensures r.Ok? ==>
      Sunshine.Apps(r.value).value ==
        Sunshine.Apps(LegacyLoadApps(run.appsFile).value).value +
        NewApps(Kept(SelectedGames(run.selection, games), AppNames(Sunshine.Apps(LegacyLoadApps(run.appsFile).value).value).value),
                run.flatpakFound, ImageFor(run, cover)).value
  {
    match LegacyLoadApps(run.appsFile)
    case Err(e) => Err(e)
    case Ok(data) =>
      match Sunshine.Apps(data)
      case Err(e) => Err(e)
      case Ok(apps) =>
        match AppNames(apps)
        case Err(e) => Err(e)
        case Ok(existing) =>
          match AppendSelected(apps, existing, SelectedGames(run.selection, games), run.flatpakFound, ImageFor(run, cover))
          case Err(e) => Err(e)
          case Ok(apps2) => Ok(Sunshine.SetApps(data, apps2))
  }
}
