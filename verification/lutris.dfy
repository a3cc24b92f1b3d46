/** Lutris: choosing the command that runs it, telling whether it is already
    running, and turning its JSON game list into records. */
module Lutris {
  import opened Wrappers
  import opened Text
  import opened Json
  import opened Games
  import opened Utils

  const FlatpakBase: string := "flatpak run net.lutris.Lutris"
  const NativeBase: string := "lutris"

  /** `get_lutris_command(args)`: the Flatpak install is preferred over a
      native one; with neither there is no command. The base and the
      arguments are joined by a space and the whole is stripped. */
  function LutrisCommand(flatpakFound: bool, nativeFound: bool, args: string): (r: Option<string>)
    ensures r.None? <==> !flatpakFound && !nativeFound
    ensures flatpakFound ==> r == Some(Strip(FlatpakBase + " " + args))
    ensures !flatpakFound && nativeFound ==> r == Some(Strip(NativeBase + " " + args))
  {
    if flatpakFound then Some(Strip(FlatpakBase + " " + args))
    else if nativeFound then Some(Strip(NativeBase + " " + args))
    else None
  }

  /** The base command the probes select. */
  function Base(flatpakFound: bool): string {
    if flatpakFound then FlatpakBase else NativeBase
  }

  /** A word followed by a space strips back to the word. */
  lemma TrailingSpace(base: string)
    requires base != [] && base[0] !in Whitespace && base[|base| - 1] !in Whitespace
    ensures Strip(base + " " + "") == base
  {
    assert base + " " + "" == "" + base + " ";
    assert AllIn(" ", Whitespace);
    StripCharsPadded("", base, " ", Whitespace);
    StripCharsKeeps(base, Whitespace);
  }

  /** Without arguments the command is exactly the base. */
  lemma NoArguments(flatpakFound: bool, nativeFound: bool)
    requires flatpakFound || nativeFound
    ensures LutrisCommand(flatpakFound, nativeFound, "") == Some(Base(flatpakFound))
  {
    var base := Base(flatpakFound);
    assert base[0] in {'f', 'l'} && base[|base| - 1] == 's';
    TrailingSpace(base);
  }

  /** Arguments without surrounding whitespace are kept verbatim after one space. */
  lemma PlainArguments(flatpakFound: bool, nativeFound: bool, args: string)
    requires flatpakFound || nativeFound
    requires args != [] && args[0] !in Whitespace && args[|args| - 1] !in Whitespace
    ensures LutrisCommand(flatpakFound, nativeFound, args) == Some(Base(flatpakFound) + " " + args)
  {
    var line := Base(flatpakFound) + " " + args;
    assert line[0] == Base(flatpakFound)[0];
    assert line[|line| - 1] == args[|args| - 1];
    StripCharsKeeps(line, Whitespace);
  }

  /** `is_lutris_running`, given the result of the process search: the
      search succeeded and printed something besides whitespace. */
  function IsLutrisRunning(result: CommandResult): (r: bool)
    ensures r <==> result.returncode == 0 && !AllIn(result.stdout, ByteWhitespace)
  {
    StripCharsEmpty(result.stdout, ByteWhitespace);
    result.returncode == 0 && StripChars(result.stdout, ByteWhitespace) != []
  }

  /** An element `game['id']` and `game['name']` can be read from. */
  predicate Listable(game: JValue) {
    game.JObj? && HasKey(game, "id") && HasKey(game, "name")
  }

  /** The error reading an element raises: a missing key, or an element
      that is not an object. */
  function ElementError(game: JValue): string {
    if game.JObj? then "KeyError" else "TypeError"
  }

  /** The (id, name) pair of every element of a list, in order; an element
      that is not an object with both members raises. */
  function Pairs(games: seq<JValue>): (r: Result<seq<(JValue, JValue)>>)
    ensures r.Ok? <==> forall k :: 0 <= k < |games| ==> Listable(games[k])
    ensures r.Ok? ==> (|r.value| == |games| &&
      forall k :: 0 <= k < |games| ==> r.value[k] == (Get(games[k], "id").value, Get(games[k], "name").value))
  {
    if games == [] then Ok([])
    else if !Listable(games[0]) then Err(ElementError(games[0]))
    else
      match Pairs(games[1..])
      case Err(e) => Err(e)
      case Ok(rest) => Ok([(Get(games[0], "id").value, Get(games[0], "name").value)] + rest)
  }

  /** The mapping in `list_lutris_games` over what `parse_json_output`
      returned: nothing for no value or a falsy one; the pairs of a list;
      a TypeError for any other truthy value, which cannot be iterated into
      objects. */
  function LutrisPairs(parsed: Option<JValue>): (r: Result<seq<(JValue, JValue)>>)
    ensures parsed.None? || !Truthy(parsed.value) ==> r == Ok([])
    ensures parsed.Some? && Truthy(parsed.value) && !parsed.value.JArr? ==> r == Err("TypeError")
    ensures parsed.Some? && parsed.value.JArr? ==> r == Pairs(parsed.value.items)
  {
    match parsed
    case None => Ok([])
    case Some(v) =>
      if !Truthy(v) then Ok([])
      else if v.JArr? then Pairs(v.items)
      else Err("TypeError")
  }

  /** The game records of the pairs; ids and names are shown as `str` would. */
  function LutrisEntries(pairs: seq<(JValue, JValue)>): (r: seq<GameEntry>)
    ensures |r| == |pairs|
    ensures forall k :: 0 <= k < |r| ==> r[k] == GameEntry(PyStr(pairs[k].0), PyStr(pairs[k].1), Lutris)
  {
    if pairs == [] then [] else [GameEntry(PyStr(pairs[0].0), PyStr(pairs[0].1), Lutris)] + LutrisEntries(pairs[1..])
  }

  /** The command `list_lutris_games` runs: the plain Lutris command,
      shown as "None" when there is none, followed by the listing flags. */
  function ListingCommand(flatpakFound: bool, nativeFound: bool): (r: string)
    ensures flatpakFound ==> r == "flatpak run net.lutris.Lutris -lo --json"
    ensures !flatpakFound && nativeFound ==> r == "lutris -lo --json"
    ensures !flatpakFound && !nativeFound ==> r == "None -lo --json"
  {
    if !flatpakFound && !nativeFound then Shown(None) + " -lo --json"
    else
      NoArguments(flatpakFound, nativeFound);
      Shown(LutrisCommand(flatpakFound, nativeFound, "")) + " -lo --json"
  }

  /** `list_lutris_games`: run the listing command and map its output;
      a failed command yields no games. */
  function ListLutrisGames(flatpakFound: bool, nativeFound: bool, run: string -> CommandResult,
                           decode: string -> Option<JValue>): (r: Result<seq<(JValue, JValue)>>)
    ensures run(ListingCommand(flatpakFound, nativeFound)).returncode != 0 ==> r == Ok([])
    ensures decode(run(ListingCommand(flatpakFound, nativeFound)).stdout).None? ==> r == Ok([])
  {
    LutrisPairs(ParseJsonOutput(run(ListingCommand(flatpakFound, nativeFound)), decode))
  }

  /** The list Lutris prints for some (id, name) pairs. */
  function GameList(pairs: seq<(JValue, JValue)>): (r: seq<JValue>)
    ensures |r| == |pairs|
    ensures forall k :: 0 <= k < |r| ==> r[k] == JObj([("id", pairs[k].0), ("name", pairs[k].1)])
  {
    if pairs == [] then [] else [JObj([("id", pairs[0].0), ("name", pairs[0].1)])] + GameList(pairs[1..])
  }

  lemma PrintedGame(id: JValue, name: JValue)
    ensures var game := JObj([("id", id), ("name", name)]);
      Listable(game) && Get(game, "id") == Some(id) && Get(game, "name") == Some(name)
  {
    var fields := [("id", id), ("name", name)];
    assert Lookup(fields, "id") == Some(id);
    assert "name" != "id" by {
      assert "name"[0] != "id"[0];
    }
    assert fields[1..] == [("name", name)];
    assert Lookup(fields, "name") == Lookup([("name", name)], "name") == Some(name);
  }

  /** Reading back a printed list gives the pairs it was printed from, in order. */
  lemma GameListRoundTrip(pairs: seq<(JValue, JValue)>)
    ensures LutrisPairs(Some(JArr(GameList(pairs)))) == Ok(pairs)
  {
    var games := GameList(pairs);
    assert forall k :: 0 <= k < |games| ==>
      Listable(games[k]) && (Get(games[k], "id").value, Get(games[k], "name").value) == pairs[k] by {
      forall k | 0 <= k < |games|
        ensures Listable(games[k]) && (Get(games[k], "id").value, Get(games[k], "name").value) == pairs[k]
      {
        PrintedGame(pairs[k].0, pairs[k].1);
      }
    }
    if pairs != [] {
      var r := Pairs(games);
      assert r.Ok? && |r.value| == |pairs|;
      assert r.value == pairs;
    }
  }
}
