/** Heroic Games Launcher: the launch command, the store files it keeps, and
    the three record shapes those files hold. */
module Heroic {
  import opened Wrappers
  import opened Text
  import opened Paths
  import opened Json
  import opened Games

  /** `get_heroic_command`: the Flatpak build is preferred over a native
      `heroic`; with neither there is no command. */
  function HeroicCommand(flatpakFound: bool, nativeFound: bool): (r: Option<(string, Install)>)
    ensures r.None? <==> !flatpakFound && !nativeFound
    ensures flatpakFound ==> r == Some(("flatpak run com.heroicgameslauncher.hgl", Flatpak))
    ensures !flatpakFound && nativeFound ==> r == Some(("heroic", Native))
  {
    if flatpakFound then Some(("flatpak run com.heroicgameslauncher.hgl", Flatpak))
    else if nativeFound then Some(("heroic", Native))
    else None
  }

  /** The stores in the order their files are read. */
  const RunnerOrder: seq<HeroicRunner> := [Legendary, Gog, Nile, Sideload]

  /** Heroic's configuration directory below the home directory. */
  function ConfigBase(install: Install): string {
    "/" + match install
      case Flatpak => ".var/app/com.heroicgameslauncher.hgl/config/heroic"
      case Native => ".config/heroic"
  }

  /** The file of one store below the configuration directory. */
  function StoreFile(runner: HeroicRunner): string {
    match runner
    case Legendary => "/legendaryConfig/legendary/installed.json"
    case Gog => "/gog_store/installed.json"
    case Nile => "/nile_config/nile/installed.json"
    case Sideload => "/sideload_apps/library.json"
  }

  /** The expanded path of one store's file for one installation kind. */
  function RunnerFile(install: Install, runner: HeroicRunner, home: string): string {
    ExpandUser("~" + (ConfigBase(install) + StoreFile(runner)), home)
  }

  /** Each store file lies at a fixed place below the home directory. */
  lemma RunnerFileBelowHome(install: Install, runner: HeroicRunner, home: string)
    ensures RunnerFile(install, runner, home) == TrimRight(home, Slashes) + ConfigBase(install) + StoreFile(runner)
  {
    var tail := ConfigBase(install) + StoreFile(runner);
    assert tail[0] == '/';
    ExpandHome(tail, home);
  }

  // ---------------------------------------------------------------- records

  /** `a or b` for two string fields read with `StrField`. */
  function Either(a: string, b: string): (r: string)
    ensures r == [] <==> a == [] && b == []
    ensures r == a || r == b
  {
    if a != [] then a else b
  }

  /** A member that is present and truthy but not a string: splitting it
      as a path raises `AttributeError`. */
  predicate NonStringTruthy(game: JValue, key: string) {
    Get(game, key).Some? && Truthy(Get(game, key).value) && !Get(game, key).value.JStr?
  }

  /** An entry of an `installed` list (or of a top-level list): the id is
      `appName`, else `app_name`; the title is the last `/` segment of a
      non-empty `install_path`, else the id; both must be non-empty. A
      truthy `install_path` that is not a string raises. */
  function InstalledRecord(game: JValue, runner: HeroicRunner): (r: Result<Option<GameEntry>>)
    ensures r.Err? <==> NonStringTruthy(game, "install_path")
    ensures r.Ok? && r.value.Some? ==> var e := r.value.value;
      e.id != [] && e.title != [] && e.source == Heroic(runner)
    ensures r.Ok? && r.value.Some? ==> r.value.value.id == Either(StrField(game, "appName"), StrField(game, "app_name"))
    ensures r.Ok? && r.value.Some? ==> (r.value.value.title ==
      (if StrField(game, "install_path") != [] then LastSegment(StrField(game, "install_path")) else r.value.value.id))
    ensures r.Ok? ==> (r.value.None? <==> (Either(StrField(game, "appName"), StrField(game, "app_name")) == [] ||
      (StrField(game, "install_path") != [] && LastSegment(StrField(game, "install_path")) == [])))
  {
    var id := Either(StrField(game, "appName"), StrField(game, "app_name"));
    if NonStringTruthy(game, "install_path") then Err("AttributeError")
    else
      var path := StrField(game, "install_path");
      var title := if path != [] then LastSegment(path) else id;
      if id != [] && title != [] then Ok(Some(GameEntry(id, title, Heroic(runner)))) else Ok(None)
  }

  /** An entry of a sideload `games` list: `app_name` and `title`, both
      non-empty; always tagged `sideload`. */
  function SideloadRecord(game: JValue): (r: Option<GameEntry>)
    ensures r.Some? <==> StrField(game, "app_name") != [] && StrField(game, "title") != []
    ensures r.Some? ==> r.value == GameEntry(StrField(game, "app_name"), StrField(game, "title"), Heroic(Sideload))
  {
    var id := StrField(game, "app_name");
    var title := StrField(game, "title");
    if id != [] && title != [] then Some(GameEntry(id, title, Heroic(Sideload))) else None
  }

  /** A member of a store file keyed by app id: the key is the id, the title
      is `title`, else `app_name`; both must be non-empty and the member an object. */
  function KeyedRecord(key: string, game: JValue, runner: HeroicRunner): (r: Option<GameEntry>)
    ensures r.Some? <==> key != [] && Either(StrField(game, "title"), StrField(game, "app_name")) != []
    ensures r.Some? ==> r.value == GameEntry(key, Either(StrField(game, "title"), StrField(game, "app_name")), Heroic(runner))
  {
    var title := Either(StrField(game, "title"), StrField(game, "app_name"));
    if key != [] && title != [] then Some(GameEntry(key, title, Heroic(runner))) else None
  }

  /** The records of an `installed` list, in order; the first entry that
      raises ends the listing. */
  function InstalledRecords(games: seq<JValue>, runner: HeroicRunner): (r: Result<seq<GameEntry>>)
    ensures r.Ok? <==> forall x :: x in games ==> InstalledRecord(x, runner).Ok?
    ensures r.Ok? ==> |r.value| <= |games|
    ensures r.Ok? ==> forall g :: g in r.value <==> exists x :: x in games && InstalledRecord(x, runner) == Ok(Some(g))
  {
    if games == [] then Ok([])
    else
      assert forall x :: x in games <==> x == games[0] || x in games[1..];
      match InstalledRecord(games[0], runner)
      case Err(e) => Err(e)
      case Ok(e) =>
        match InstalledRecords(games[1..], runner)
        case Err(e) => Err(e)
        case Ok(rest) => Ok((if e.Some? then [e.value] else []) + rest)
  }

  function SideloadRecords(games: seq<JValue>): (r: seq<GameEntry>)
    ensures |r| <= |games|
    ensures forall g :: g in r <==> exists x :: x in games && SideloadRecord(x) == Some(g)
  {
    if games == [] then []
    else
      assert forall x :: x in games <==> x == games[0] || x in games[1..];
      var e := SideloadRecord(games[0]);
      (if e.Some? then [e.value] else []) + SideloadRecords(games[1..])
  }

  function KeyedRecords(fields: seq<(string, JValue)>, runner: HeroicRunner): (r: seq<GameEntry>)
    ensures |r| <= |fields|
    ensures forall g :: g in r <==> exists f :: f in fields && KeyedRecord(f.0, f.1, runner) == Some(g)
  {
    if fields == [] then []
    else
      assert forall x :: x in fields <==> x == fields[0] || x in fields[1..];
      var e := KeyedRecord(fields[0].0, fields[0].1, runner);
      (if e.Some? then [e.value] else []) + KeyedRecords(fields[1..], runner)
  }

  /** The records of one decoded store file: an object with `installed` lists
      installed games, else one with `games` lists sideloaded ones, else each
      member is a game keyed by its id; a top-level list is read like
      `installed`; any other value yields nothing. Iterating a number,
      boolean or null raises a TypeError. */
  function FileRecords(data: JValue, runner: HeroicRunner): (r: Result<seq<GameEntry>>)
    ensures HasKey(data, "installed") && Elements(Get(data, "installed").value).Ok? ==>
      r == InstalledRecords(Elements(Get(data, "installed").value).value, runner)
    ensures HasKey(data, "installed") && Elements(Get(data, "installed").value).Err? ==> r.Err?
    ensures !HasKey(data, "installed") && HasKey(data, "games") && Elements(Get(data, "games").value).Ok? ==>
      r == Ok(SideloadRecords(Elements(Get(data, "games").value).value))
    ensures !HasKey(data, "installed") && HasKey(data, "games") && Elements(Get(data, "games").value).Err? ==> r.Err?
    ensures !HasKey(data, "installed") && HasKey(data, "games") && r.Ok? ==>
      forall g :: g in r.value ==> g.source == Heroic(Sideload)
    ensures data.JObj? && !HasKey(data, "installed") && !HasKey(data, "games") ==>
      r == Ok(KeyedRecords(data.fields, runner))
    ensures data.JArr? ==> r == InstalledRecords(data.items, runner)
    ensures !data.JObj? && !data.JArr? ==> r == Ok([])
    ensures r.Ok? ==> forall g :: g in r.value ==> g.id != [] && g.title != [] && g.source.Heroic?
  {
    match data
    case JObj(fields) =>
      if HasKey(data, "installed") then
        match Elements(Get(data, "installed").value)
        case Ok(xs) => InstalledRecords(xs, runner)
        case Err(e) => Err(e)
      else if HasKey(data, "games") then
        match Elements(Get(data, "games").value)
        case Ok(xs) => Ok(SideloadRecords(xs))
        case Err(e) => Err(e)
      else Ok(KeyedRecords(fields, runner))
    case JArr(xs) => InstalledRecords(xs, runner)
    case _ => Ok([])
  }

  /** An `install_path` ending in `/` has an empty last segment, so the
      record is dropped even though its id is set. */
  lemma TrailingSlashDropped(game: JValue, runner: HeroicRunner)
    requires StrField(game, "install_path") != []
    requires StrField(game, "install_path")[|StrField(game, "install_path")| - 1] == '/'
    ensures InstalledRecord(game, runner) == Ok(None)
  {
  }

  /** The fields of a two-member installed record read back as written. */
  lemma InstalledFields(id: string, path: string)
    ensures var game := JObj([("appName", JStr(id)), ("install_path", JStr(path))]);
      StrField(game, "appName") == id && StrField(game, "install_path") == path
  {
    var game := JObj([("appName", JStr(id)), ("install_path", JStr(path))]);
    assert |"appName"| != |"install_path"|;
    assert Lookup(game.fields, "install_path") == Lookup(game.fields[1..], "install_path");
  }

  /** An installed game titled by its directory: the title is the last path
      segment, and the id is `appName`. */
  lemma InstallPathTitle(id: string, dir: string, name: string, runner: HeroicRunner)
    requires id != [] && dir != [] && name != [] && '/' !in name
    ensures InstalledRecord(JObj([("appName", JStr(id)), ("install_path", JStr(Join(dir, name)))]), runner) ==
      Ok(Some(GameEntry(id, name, Heroic(runner))))
  {
    InstalledFields(id, Join(dir, name));
    LastSegmentOfJoin(dir, name);
  }

  /** An `installed` entry whose `install_path` is a number ends the whole
      file's listing with the error, even though its `appName` is set. */
  lemma NumericPathRaises(id: string, n: int, runner: HeroicRunner)
    requires n != 0
    ensures FileRecords(JObj([("installed", JArr([JObj([("appName", JStr(id)), ("install_path", JNum(n))])]))]), runner).Err?
  {
    var game := JObj([("appName", JStr(id)), ("install_path", JNum(n))]);
    assert |"appName"| != |"install_path"|;
    assert Lookup(game.fields, "install_path") == Lookup(game.fields[1..], "install_path");
    assert InstalledRecord(game, runner).Err?;
  }

  /** Without `appName` and `install_path` the id comes from `app_name` and
      doubles as the title. */
  lemma AppNameFallback(id: string, runner: HeroicRunner)
    requires id != []
    ensures InstalledRecord(JObj([("app_name", JStr(id))]), runner) == Ok(Some(GameEntry(id, id, Heroic(runner))))
  {
    var game := JObj([("app_name", JStr(id))]);
    assert StrField(game, "appName") == [];
    assert StrField(game, "install_path") == [];
    assert StrField(game, "app_name") == id;
  }

  // ---------------------------------------------------------------- listing

  /** A store and the file Heroic keeps its games in. */
  type Store = (HeroicRunner, string)

  /** The stores of one installation kind, in the order they are read. */
  function Stores(install: Install, home: string): (r: seq<Store>)
    ensures |r| == |RunnerOrder|
    ensures forall k :: 0 <= k < |r| ==> r[k] == (RunnerOrder[k], RunnerFile(install, RunnerOrder[k], home))
  {
    seq(|RunnerOrder|, k requires 0 <= k < |RunnerOrder| => (RunnerOrder[k], RunnerFile(install, RunnerOrder[k], home)))
  }

  /** The records of one store's file: none when it is missing or malformed. */
  function StoreRecords(store: Store, readJson: string -> FileState): (r: Result<seq<GameEntry>>)
    ensures !readJson(store.1).Decoded? ==> r == Ok([])
    ensures readJson(store.1).Decoded? ==> r == FileRecords(readJson(store.1).value, store.0)
  {
    match readJson(store.1)
    case Decoded(data) => FileRecords(data, store.0)
    case _ => Ok([])
  }

  /** Two results in sequence: the first failure, else both record lists in order. */
  function Then(a: Result<seq<GameEntry>>, b: Result<seq<GameEntry>>): (r: Result<seq<GameEntry>>)
    ensures r.Ok? <==> a.Ok? && b.Ok?
    ensures r.Ok? ==> r.value == a.value + b.value
  {
    match a
    case Err(e) => Err(e)
    case Ok(x) =>
      match b
      case Err(e) => Err(e)
      case Ok(y) => Ok(x + y)
  }

  /** The records of the given stores' files in store order; the first failure aborts. */
  function StoresRecords(stores: seq<Store>, readJson: string -> FileState): (r: Result<seq<GameEntry>>)
    ensures stores == [] ==> r == Ok([])
    ensures r.Err? ==> exists k :: 0 <= k < |stores| && StoreRecords(stores[k], readJson).Err?
  {
    if stores == [] then Ok([])
    else Then(StoreRecords(stores[0], readJson), StoresRecords(stores[1..], readJson))
  }

  /** The stores' records succeed when every store's do, and hold exactly the
      records of the stores. */
  lemma {:induction false} StoresMembership(stores: seq<Store>, readJson: string -> FileState)
    ensures var r := StoresRecords(stores, readJson);
      (r.Ok? <==> forall k :: 0 <= k < |stores| ==> StoreRecords(stores[k], readJson).Ok?) &&
      (r.Ok? ==> forall g :: g in r.value <==>
        exists k :: 0 <= k < |stores| && g in StoreRecords(stores[k], readJson).value)
  {
    if stores != [] {
      StoresMembership(stores[1..], readJson);
      assert forall k :: 1 <= k < |stores| ==> stores[k] == stores[1..][k - 1];
      var r := StoresRecords(stores, readJson);
      var rest := StoresRecords(stores[1..], readJson);
      if r.Ok? {
        forall g | g in rest.value
          ensures exists k :: 1 <= k < |stores| && g in StoreRecords(stores[k], readJson).value
        {
          var j :| 0 <= j < |stores[1..]| && g in StoreRecords(stores[1..][j], readJson).value;
          assert stores[j + 1] == stores[1..][j];
        }
      }
    }
  }

  lemma ThenAssoc(a: Result<seq<GameEntry>>, b: Result<seq<GameEntry>>, c: Result<seq<GameEntry>>)
    requires a.Ok? && b.Ok? && c.Ok?
    ensures Then(a, Then(b, c)) == Then(Then(a, b), c)
  {
    assert a.value + (b.value + c.value) == (a.value + b.value) + c.value;
  }

  /** Stores are read in order: the records of a longer run of stores are
      those of its first part followed by those of the rest. */
  lemma {:induction false} StoresInOrder(ss: seq<Store>, ts: seq<Store>, readJson: string -> FileState)
    requires StoresRecords(ss, readJson).Ok? && StoresRecords(ts, readJson).Ok?
    ensures StoresRecords(ss + ts, readJson) == Then(StoresRecords(ss, readJson), StoresRecords(ts, readJson))
    decreases |ss|
  {
    var c := StoresRecords(ts, readJson);
    if ss == [] {
      assert ss + ts == ts;
      assert [] + c.value == c.value;
    } else {
      var a := StoreRecords(ss[0], readJson);
      var b := StoresRecords(ss[1..], readJson);
      StoresAppendFirst(ss, ts, readJson);
      StoresInOrder(ss[1..], ts, readJson);
      ThenAssoc(a, b, c);
    }
  }

  lemma StoresAppendFirst(ss: seq<Store>, ts: seq<Store>, readJson: string -> FileState)
    requires ss != []
    ensures StoresRecords(ss + ts, readJson) ==
      Then(StoreRecords(ss[0], readJson), StoresRecords(ss[1..] + ts, readJson))
  {
    var s := ss + ts;
    assert s != [] && s[0] == ss[0] && s[1..] == ss[1..] + ts;
  }

  /** A malformed store file is skipped and the later stores are still read. */
  lemma MalformedStoreSkipped(stores: seq<Store>, readJson: string -> FileState)
    requires stores != [] && readJson(stores[0].1).Malformed?
    ensures StoresRecords(stores, readJson) == StoresRecords(stores[1..], readJson)
  {
    match StoresRecords(stores[1..], readJson)
    case Err(_) =>
    case Ok(more) => assert [] + more == more;
  }

  /** `list_heroic_games`: nothing without a Heroic command; otherwise the
      records of the legendary, gog, nile and sideload files of the detected
      installation, in that order. */
  function ListHeroicGames(command: Option<(string, Install)>, home: string, readJson: string -> FileState): (r: Result<seq<GameEntry>>)
    ensures command.None? ==> r == Ok([])
    ensures r.Ok? ==> forall g :: g in r.value ==> g.id != [] && g.title != [] && g.source.Heroic?
    ensures command.Some? ==> (r.Ok? <==> forall k :: 0 <= k < |RunnerOrder| ==>
      StoreRecords((RunnerOrder[k], RunnerFile(command.value.1, RunnerOrder[k], home)), readJson).Ok?)
    ensures command.Some? && r.Ok? ==> forall g :: g in r.value <==>
      exists k :: 0 <= k < |RunnerOrder| && g in StoreRecords((RunnerOrder[k], RunnerFile(command.value.1, RunnerOrder[k], home)), readJson).value
  {
    match command
    case None => Ok([])
    case Some((_, install)) =>
      var stores := Stores(install, home);
      StoresMembership(stores, readJson);
      StoresRecords(stores, readJson)
  }
}
