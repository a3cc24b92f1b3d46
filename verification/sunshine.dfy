/** Sunshine: how it is installed, its apps file, and the app entry added
    for a game. */
module Sunshine {
  import opened Wrappers
  import opened Text
  import opened Json
  import opened Games
  import opened Utils

  /** `detect_sunshine_installation`: the Flatpak probe is checked first,
      then the native one. */
  function DetectSunshine(flatpakFound: bool, nativeFound: bool): (r: (bool, string))
    ensures r.0 <==> flatpakFound || nativeFound
    ensures r.1 == (if flatpakFound then "flatpak" else if nativeFound then "native" else "")
  {
    if flatpakFound then (true, "flatpak")
    else if nativeFound then (true, "native")
    else (false, "")
  }

  /** The configuration used when there is no usable apps file. */
  const DefaultApps: JValue :=
    JObj([("env", JObj([("PATH", JStr("$(PATH):$(HOME)/.local/bin"))])), ("apps", JArr([]))])

  /** The app list of a configuration, as `data["apps"].append` reaches it:
      a TypeError when the configuration is not an object, a KeyError when it
      has no "apps", an AttributeError when "apps" is not a list. */
  function Apps(data: JValue): (r: Result<seq<JValue>>)
    ensures r.Ok? <==> data.JObj? && Get(data, "apps").Some? && Get(data, "apps").value.JArr?
    ensures r.Ok? ==> Get(data, "apps") == Some(JArr(r.value))
  {
    if !data.JObj? then Err("TypeError")
    else match Get(data, "apps")
      case None => Err("KeyError")
      case Some(JArr(xs)) => Ok(xs)
      case Some(_) => Err("AttributeError")
  }

  /** `load_sunshine_apps`: a missing or malformed file yields the default
      configuration; otherwise whatever the file holds. */
  function LoadSunshineApps(state: FileState): (r: JValue)
    ensures state.Decoded? ==> r == state.value
    ensures !state.Decoded? ==> Apps(r) == Ok([]) && Get(r, "env").Some?
  {
    match state
    case Decoded(v) => v
    case _ => DefaultApps
  }

  /** The runner tags Heroic games carry. */
  const HeroicTags: seq<string> := ["legendary", "gog", "nile", "sideload"]

  /** The Bottles command line that starts a program in a bottle. */
  const BottlesRun: string := "flatpak run --command=bottles-cli com.usebottles.bottles run"

  /** The launch command for a game, chosen by its runner tag: "Lutris",
      one of the Heroic store tags, or else a bottle name. The Lutris and
      Heroic commands are shown as "None" when there is none. */
  function LaunchCommand(runner: string, id: string, lutrisCommand: Option<string>, heroicCommand: Option<string>): (r: string)
    ensures runner == "Lutris" ==> r == Shown(lutrisCommand) + " lutris:rungameid/" + id
    ensures runner != "Lutris" && runner in HeroicTags ==>
      r == Shown(heroicCommand) + " heroic://launch/" + runner + "/" + id + " --no-gui --no-sandbox"
    ensures runner != "Lutris" && runner !in HeroicTags ==>
      r == BottlesRun + " -b \"" + runner + "\" -p \"" + id + [Quote]
  {
    if runner == "Lutris" then Shown(lutrisCommand) + " lutris:rungameid/" + id
    else if runner in HeroicTags then Shown(heroicCommand) + " heroic://launch/" + runner + "/" + id + " --no-gui --no-sandbox"
    else BottlesRun + " -b \"" + runner + "\" -p \"" + id + [Quote]
  }

  /** The runner tag the caller passes for a game of each source. */
  function RunnerTag(source: Source): string
    requires source.Lutris? || source.Heroic? || source.Bottles?
  {
    match source
    case Lutris => "Lutris"
    case Heroic(r) => r.Tag()
    case Bottles(b) => b
  }

  /** A bottle whose name is not itself a runner tag. */
  predicate OrdinaryBottle(b: string) {
    b != "Lutris" && b !in HeroicTags
  }

  /** Passing a source's runner tag picks that launcher's command template. */
  lemma LaunchBySource(source: Source, id: string, lutrisCommand: Option<string>, heroicCommand: Option<string>)
    requires source.Lutris? || source.Heroic? || (source.Bottles? && OrdinaryBottle(source.bottle))
    ensures source.Lutris? ==>
      LaunchCommand(RunnerTag(source), id, lutrisCommand, heroicCommand) == Shown(lutrisCommand) + " lutris:rungameid/" + id
    ensures source.Heroic? ==>
      LaunchCommand(RunnerTag(source), id, lutrisCommand, heroicCommand) ==
        Shown(heroicCommand) + " heroic://launch/" + source.runner.Tag() + "/" + id + " --no-gui --no-sandbox"
    ensures source.Bottles? ==>
      LaunchCommand(RunnerTag(source), id, lutrisCommand, heroicCommand) ==
        BottlesRun + " -b \"" + source.bottle + "\" -p \"" + id + [Quote]
  {
    if source.Heroic? {
      var t := source.runner.Tag();
      assert t in HeroicTags;
      assert t[0] != 'L';
    }
  }

  /** A bottle named like a Heroic store ("gog", say) is launched through
      Heroic, since the tag test comes before the bottle case. */
  lemma BottleNamedLikeStore(b: string, id: string, lutrisCommand: Option<string>, heroicCommand: Option<string>)
    requires b in HeroicTags
    ensures LaunchCommand(RunnerTag(Bottles(b)), id, lutrisCommand, heroicCommand)
      == Shown(heroicCommand) + " heroic://launch/" + b + "/" + id + " --no-gui --no-sandbox"
  {
    assert b[0] != 'L';
  }

  /** The members of the app entry for a game, in the order they are written. */
  function AppFields(name: string, cmd: string, image: string): seq<(string, JValue)> {
    [("name", JStr(name)), ("cmd", JStr(cmd)), ("image-path", JStr(image)),
     ("auto-detach", JStr("true")), ("wait-all", JStr("true")), ("exit-timeout", JStr("5"))]
  }

  /** The keys of the app entry differ in length, so a lookup passes over
      the keys before its own. */
  lemma AppFieldsLookup(name: string, cmd: string, image: string)
    ensures Lookup(AppFields(name, cmd, image), "name") == Some(JStr(name))
    ensures Lookup(AppFields(name, cmd, image), "cmd") == Some(JStr(cmd))
    ensures Lookup(AppFields(name, cmd, image), "image-path") == Some(JStr(image))
    ensures Lookup(AppFields(name, cmd, image), "auto-detach") == Some(JStr("true"))
    ensures Lookup(AppFields(name, cmd, image), "wait-all") == Some(JStr("true"))
    ensures Lookup(AppFields(name, cmd, image), "exit-timeout") == Some(JStr("5"))
  {
    var fields := AppFields(name, cmd, image);
    assert |fields[0].0| == 4 && |fields[1].0| == 3 && |fields[2].0| == 10;
    SkipTo(fields, 1, "cmd");
    SkipTo(fields, 2, "image-path");
    AppFieldsLookupTail(name, cmd, image);
  }

  lemma AppFieldsLookupTail(name: string, cmd: string, image: string)
    ensures Lookup(AppFields(name, cmd, image), "auto-detach") == Some(JStr("true"))
    ensures Lookup(AppFields(name, cmd, image), "wait-all") == Some(JStr("true"))
    ensures Lookup(AppFields(name, cmd, image), "exit-timeout") == Some(JStr("5"))
  {
    var fields := AppFields(name, cmd, image);
    assert |fields[0].0| == 4 && |fields[1].0| == 3 && |fields[2].0| == 10;
    assert |fields[3].0| == 11 && |fields[4].0| == 8 && |fields[5].0| == 12;
    SkipTo(fields, 3, "auto-detach");
    SkipTo(fields, 4, "wait-all");
    SkipTo(fields, 5, "exit-timeout");
  }

  /** A lookup finds the member at `i` once it has passed those before it. */
  lemma SkipTo(fields: seq<(string, JValue)>, i: nat, key: string)
    requires i < |fields| && fields[i].0 == key
    requires forall j :: 0 <= j < i ==> |fields[j].0| != |key|
    ensures Lookup(fields, key) == Some(fields[i].1)
  {
    LookupSkips(fields, i, key);
  }

  /** The app entry for a game. */
  function NewApp(name: string, cmd: string, image: string): (r: JValue)
    ensures Get(r, "name") == Some(JStr(name))
    ensures Get(r, "cmd") == Some(JStr(cmd))
    ensures Get(r, "image-path") == Some(JStr(image))
    ensures Get(r, "auto-detach") == Some(JStr("true")) && Get(r, "wait-all") == Some(JStr("true"))
    ensures Get(r, "exit-timeout") == Some(JStr("5"))
  {
    AppFieldsLookup(name, cmd, image);
    JObj(AppFields(name, cmd, image))
  }

  /** `fields` with the member named `key` given the value `v`, in place. */
  function SetField(fields: seq<(string, JValue)>, key: string, v: JValue): (r: seq<(string, JValue)>)
    ensures |r| == |fields|
    ensures forall k :: 0 <= k < |r| ==> r[k].0 == fields[k].0
    ensures forall k :: 0 <= k < |r| && fields[k].0 != key ==> r[k] == fields[k]
  {
    if fields == [] then []
    else if fields[0].0 == key then [(key, v)] + fields[1..]
    else [fields[0]] + SetField(fields[1..], key, v)
  }

  /** After setting a member present in `fields`, looking it up gives the new
      value and every other member reads as before. */
  lemma {:induction false} SetFieldLookup(fields: seq<(string, JValue)>, key: string, v: JValue, other: string)
    requires Lookup(fields, key).Some?
    ensures Lookup(SetField(fields, key, v), key) == Some(v)
    ensures other != key ==> Lookup(SetField(fields, key, v), other) == Lookup(fields, other)
    decreases |fields|
  {
    if fields[0].0 != key {
      SetFieldLookup(fields[1..], key, v, other);
      assert SetField(fields, key, v)[1..] == SetField(fields[1..], key, v);
    }
  }

  /** A configuration with its app list replaced by `apps`. */
  function SetApps(data: JValue, apps: seq<JValue>): (r: JValue)
    requires Apps(data).Ok?
    ensures Apps(r) == Ok(apps)
    ensures forall key :: key != "apps" ==> Get(r, key) == Get(data, key)
  {
    var fields := SetField(data.fields, "apps", JArr(apps));
    assert forall key :: Lookup(fields, key) == (if key == "apps" then Some(JArr(apps)) else Lookup(data.fields, key)) by {
      forall key {
        SetFieldLookup(data.fields, "apps", JArr(apps), key);
      }
    }
    JObj(fields)
  }

  /** `add_game_to_sunshine`: the configuration with one app appended to
      its "apps" list, launching the game through its runner; the error
      `data["apps"].append` raises when there is no such list. */
  function AddGame(data: JValue, id: string, name: string, image: string, runner: string,
                   lutrisCommand: Option<string>, heroicCommand: Option<string>): (r: Result<JValue>)
    ensures r.Ok? <==> Apps(data).Ok?
    ensures r.Ok? ==> (r.value.JObj? && Apps(r.value) ==
      Ok(Apps(data).value + [NewApp(name, LaunchCommand(runner, id, lutrisCommand, heroicCommand), image)]))
    ensures r.Ok? ==> forall key :: key != "apps" ==> Get(r.value, key) == Get(data, key)
  {
    match Apps(data)
    case Err(e) => Err(e)
    case Ok(apps) =>
      Ok(SetApps(data, apps + [NewApp(name, LaunchCommand(runner, id, lutrisCommand, heroicCommand), image)]))
  }

  /** Adding a game keeps the earlier apps in place and grows the list by one. */
  lemma AddKeepsApps(data: JValue, id: string, name: string, image: string, runner: string,
                     lutrisCommand: Option<string>, heroicCommand: Option<string>)
    requires Apps(data).Ok?
    ensures var after := Apps(AddGame(data, id, name, image, runner, lutrisCommand, heroicCommand).value).value;
      |after| == |Apps(data).value| + 1 && after[..|Apps(data).value|] == Apps(data).value
  {
    var before := Apps(data).value;
    var after := Apps(AddGame(data, id, name, image, runner, lutrisCommand, heroicCommand).value).value;
    assert after[..|before|] == before;
  }
}
