/** RetroArch: `retroarch.cfg` lookups, the playlist and cores directories,
    the choice of a core library, and the scan of `.lpl` playlists. */
module RetroArch {
  import opened Wrappers
  import opened Text
  import opened Paths
  import opened Json
  import opened Games

  /** What the adapter observes: whether the Flatpak build is installed, the
      home directory, and the file system. `readLines` is None for a file
      that does not exist; `readJson` reads and decodes one file. */
  datatype RetroEnv = RetroEnv(
    flatpak: bool,
    home: string,
    readLines: string -> Option<seq<string>>,
    isFile: string -> bool,
    isDir: string -> bool,
    exists_: string -> bool,
    listDir: string -> seq<string>,
    readJson: string -> FileState)

  // ---------------------------------------------------------------- config

  /** The configuration directory below the home directory. */
  function ConfigTail(flatpak: bool): string {
    "/" + if flatpak then ".var/app/org.libretro.RetroArch/config/retroarch" else ".config/retroarch"
  }

  /** `get_retroarch_config_path`: the Flatpak sandbox's directory when the
      Flatpak build is installed, else `~/.config/retroarch`. */
  function ConfigPath(flatpak: bool, home: string): (r: string)
    ensures r == TrimRight(home, Slashes) + ConfigTail(flatpak)
  {
    ExpandHome(ConfigTail(flatpak), home);
    ExpandUser("~" + ConfigTail(flatpak), home)
  }

  /** What one raw line of `retroarch.cfg` says about `setting`: nothing for a
      blank or `#` line, a line not starting with `setting`, a line without
      `=` or an empty value; otherwise the text after the first `=`, stripped
      of whitespace and then of double quotes, with `~` expanded. */
  function LineValue(raw: string, setting: string, home: string): (r: Option<string>)
    ensures r.Some? ==> r.value != []
    ensures r.Some? ==> StartsWith(Strip(raw), setting) && !StartsWith(Strip(raw), "#") && '=' in raw
  {
    var line := Strip(raw);
    if line == [] || StartsWith(line, "#") || !StartsWith(line, setting) || '=' !in line then None
    else
      StripCharsSlice(raw, Whitespace);
      var value := StripChars(Strip(line[IndexOf(line, '=') + 1..]), QuoteSet);
      if value == [] then None else Some(ExpandUser(value, home))
  }

  /** The first of `f` applied to each line, in order, that is a value. */
  function FirstOf(lines: seq<string>, f: string -> Option<string>): (r: Option<string>)
    requires forall l :: f(l).Some? ==> f(l).value != []
    ensures r.Some? ==> r.value != []
  {
    if lines == [] then None
    else if f(lines[0]).Some? then f(lines[0])
    else FirstOf(lines[1..], f)
  }

  lemma {:induction false} FirstOfNone(lines: seq<string>, f: string -> Option<string>)
    requires forall l :: f(l).Some? ==> f(l).value != []
    ensures FirstOf(lines, f).None? <==> forall i :: 0 <= i < |lines| ==> f(lines[i]).None?
  {
    if lines != [] {
      FirstOfNone(lines[1..], f);
      assert forall i :: 1 <= i < |lines| ==> lines[i] == lines[1..][i - 1];
    }
  }

  lemma {:induction false} FirstOfAt(lines: seq<string>, f: string -> Option<string>, i: nat)
    requires forall l :: f(l).Some? ==> f(l).value != []
    requires i < |lines| && f(lines[i]).Some?
    requires forall j :: 0 <= j < i ==> f(lines[j]).None?
    ensures FirstOf(lines, f) == f(lines[i])
  {
    if i > 0 {
      assert f(lines[0]).None?;
      assert forall j :: 0 <= j < i - 1 ==> lines[1..][j] == lines[j + 1];
      FirstOfAt(lines[1..], f, i - 1);
    }
  }

  /** The value of the first line that yields one (`FirstValueAt` says which). */
  function FirstValue(lines: seq<string>, setting: string, home: string): (r: Option<string>)
    ensures r.Some? ==> r.value != []
  {
    FirstOf(lines, l => LineValue(l, setting, home))
  }

  /** Lookup finds no value iff no line yields one. */
  lemma FirstValueNone(lines: seq<string>, setting: string, home: string)
    ensures FirstValue(lines, setting, home).None? <==>
      forall i :: 0 <= i < |lines| ==> LineValue(lines[i], setting, home).None?
  {
    FirstOfNone(lines, l => LineValue(l, setting, home));
  }

  /** Lookup returns the value of line `i` when no earlier line yields one. */
  lemma FirstValueAt(lines: seq<string>, setting: string, home: string, i: nat)
    requires i < |lines| && LineValue(lines[i], setting, home).Some?
    requires forall j :: 0 <= j < i ==> LineValue(lines[j], setting, home).None?
    ensures FirstValue(lines, setting, home) == LineValue(lines[i], setting, home)
  {
    FirstOfAt(lines, l => LineValue(l, setting, home), i);
  }

  function ConfigFile(env: RetroEnv): string {
    Join(ConfigPath(env.flatpak, env.home), "retroarch.cfg")
  }

  /** `_parse_config_value`: None when `retroarch.cfg` does not exist. */
  function ParseConfigValue(env: RetroEnv, setting: string): (r: Option<string>)
    ensures env.readLines(ConfigFile(env)).None? ==> r.None?
    ensures r.Some? ==> r.value != []
    ensures env.readLines(ConfigFile(env)).Some? ==> r == FirstValue(env.readLines(ConfigFile(env)).value, setting, env.home)
  {
    match env.readLines(ConfigFile(env))
    case None => None
    case Some(lines) => FirstValue(lines, setting, env.home)
  }

  /** A setting as RetroArch writes it: `key = "value"`. */
  function SettingLine(key: string, value: string): string {
    key + " = " + [Quote] + value + [Quote]
  }

  /** A quoted value after `=` and a space strips back to the bare value. */
  lemma QuotedValue(value: string)
    requires value != [] && value[0] != Quote && value[|value| - 1] != Quote
    ensures StripChars(Strip(" " + [Quote] + value + [Quote]), QuoteSet) == value
  {
    var q := [Quote] + value + [Quote];
    assert " " + [Quote] + value + [Quote] == " " + q + "";
    StripCharsPadded(" ", q, "", Whitespace);
    StripCharsKeeps(q, Whitespace);
    StripCharsPadded([Quote], value, [Quote], QuoteSet);
    StripCharsKeeps(value, QuoteSet);
  }

  /** A written setting line survives `strip` and splits at the `=` after its key. */
  lemma SettingLineShape(key: string, value: string)
    requires key != [] && key[0] !in Whitespace && '=' !in key
    ensures var line := SettingLine(key, value);
      Strip(line) == line && '=' in line && IndexOf(line, '=') == |key| + 1 &&
      line[|key| + 2..] == " " + [Quote] + value + [Quote] && line[..|key|] == key
  {
    var line := SettingLine(key, value);
    var tail := " = " + [Quote] + value + [Quote];
    assert line == key + tail;
    assert Strip(line) == line by {
      assert line[0] == key[0] && line[|line| - 1] == Quote;
      StripCharsKeeps(line, Whitespace);
    }
    assert line[..|key|] == key;
    assert line[|key| + 2..] == " " + [Quote] + value + [Quote] by {
      assert line[|key| + 2..] == tail[2..];
    }
    assert IndexOf(line, '=') == |key| + 1 by {
      assert line[|key| + 1] == '=';
      assert '=' !in line[..|key| + 1] by {
        assert line[..|key| + 1] == key + " ";
      }
    }
  }

  /** A written setting reads back as its value, under its own key and under
      every prefix of it, because lookup matches keys by prefix. */
  lemma SettingLineValue(setting: string, key: string, value: string, home: string)
    requires StartsWith(key, setting) && key != [] && key[0] !in Whitespace && key[0] != '#' && '=' !in key
    requires value != [] && value[0] != Quote && value[|value| - 1] != Quote && value[0] != '~'
    ensures LineValue(SettingLine(key, value), setting, home) == Some(value)
  {
    var line := SettingLine(key, value);
    SettingLineRead(setting, key, value);
    LineValueOf(line, setting, home, value);
    assert !StartsWith(value, "~") by {
      assert value[..1][0] == value[0];
    }
  }

  /** `LineValue` on a line that passes its checks is the expanded value. */
  lemma LineValueOf(raw: string, setting: string, home: string, v: string)
    requires Strip(raw) == raw && raw != [] && !StartsWith(raw, "#") && StartsWith(raw, setting) && '=' in raw
    requires StripChars(Strip(raw[IndexOf(raw, '=') + 1..]), QuoteSet) == v && v != []
    ensures LineValue(raw, setting, home) == Some(ExpandUser(v, home))
  {
  }

  /** The checks `LineValue` makes, on a written setting line. */
  lemma SettingLineRead(setting: string, key: string, value: string)
    requires StartsWith(key, setting) && key != [] && key[0] !in Whitespace && key[0] != '#' && '=' !in key
    requires value != [] && value[0] != Quote && value[|value| - 1] != Quote
    ensures var line := SettingLine(key, value);
      Strip(line) == line && line != [] && !StartsWith(line, "#") && StartsWith(line, setting) && '=' in line &&
      StripChars(Strip(line[IndexOf(line, '=') + 1..]), QuoteSet) == value
  {
    var line := SettingLine(key, value);
    SettingLineShape(key, value);
    assert StartsWith(line, setting) by {
      assert line[..|setting|] == line[..|key|][..|setting|];
    }
    assert line[0] == key[0];
    assert !StartsWith(line, "#");
    assert line[IndexOf(line, '=') + 1..] == " " + [Quote] + value + [Quote];
    QuotedValue(value);
  }

  /** A commented-out line yields nothing, whatever it contains. */
  lemma CommentLine(rest: string, setting: string, home: string)
    ensures LineValue("#" + rest, setting, home) == None
  {
    var raw := "#" + rest;
    var t := TrimLeft(raw, Whitespace);
    assert t == raw;
    TrimRightPrefix(t, Whitespace);
    var s := TrimRight(t, Whitespace);
    assert s != [];
    assert s[0] == '#';
    assert StartsWith(Strip(raw), "#");
  }

  /** `get_retroarch_playlist_directory`: the configured directory, else
      `<config>/playlists`. */
  function PlaylistDirectory(env: RetroEnv): (r: string)
    ensures r != []
    ensures ParseConfigValue(env, "playlist_directory").Some? ==> r == ParseConfigValue(env, "playlist_directory").value
    ensures ParseConfigValue(env, "playlist_directory").None? ==> r == Join(ConfigPath(env.flatpak, env.home), "playlists")
  {
    match ParseConfigValue(env, "playlist_directory")
    case Some(v) => v
    case None => Join(ConfigPath(env.flatpak, env.home), "playlists")
  }

  /** With no `retroarch.cfg` the playlists live in the configuration directory. */
  lemma PlaylistsWithoutConfig(env: RetroEnv)
    requires env.readLines(ConfigFile(env)).None?
    ensures PlaylistDirectory(env) == Join(TrimRight(env.home, Slashes) + ConfigTail(env.flatpak), "playlists")
  {
  }

  /** The first `playlist_directory` line with a value decides the directory. */
  lemma ConfiguredPlaylists(env: RetroEnv, before: seq<string>, dir: string, after: seq<string>)
    requires env.readLines(ConfigFile(env)) == Some(before + [SettingLine("playlist_directory", dir)] + after)
    requires forall i :: 0 <= i < |before| ==> LineValue(before[i], "playlist_directory", env.home).None?
    requires dir != [] && dir[0] != Quote && dir[|dir| - 1] != Quote && dir[0] != '~'
    ensures PlaylistDirectory(env) == dir
  {
    var key := "playlist_directory";
    assert key[0] == 'p' && '=' !in key;
    ConfiguredValue(env, key, before, dir, after);
  }

  /** The first line with a value for a setting, written as RetroArch
      writes it, decides that setting. */
  lemma ConfiguredValue(env: RetroEnv, key: string, before: seq<string>, v: string, after: seq<string>)
    requires key != [] && key[0] !in Whitespace && key[0] != '#' && '=' !in key
    requires env.readLines(ConfigFile(env)) == Some(before + [SettingLine(key, v)] + after)
    requires forall i :: 0 <= i < |before| ==> LineValue(before[i], key, env.home).None?
    requires v != [] && v[0] != Quote && v[|v| - 1] != Quote && v[0] != '~'
    ensures ParseConfigValue(env, key) == Some(v)
  {
    var lines := before + [SettingLine(key, v)] + after;
    assert StartsWith(key, key);
    SettingLineValue(key, key, v, env.home);
    assert lines[|before|] == SettingLine(key, v);
    assert forall j :: 0 <= j < |before| ==> lines[j] == before[j];
    FirstValueAt(lines, key, env.home, |before|);
  }

  /** `get_retroarch_cores_directory`: the configured directory, else
      `<config>/cores` if it is a directory, else `/app/libretro` for the
      Flatpak build, else `<config>/cores` all the same. */
  function CoresDirectory(env: RetroEnv): (r: string)
    ensures r != []
    ensures ParseConfigValue(env, "libretro_directory").Some? ==> r == ParseConfigValue(env, "libretro_directory").value
    ensures ParseConfigValue(env, "libretro_directory").None? ==>
      var default := Join(ConfigPath(env.flatpak, env.home), "cores");
      r == (if env.isDir(default) || !env.flatpak then default else "/app/libretro")
  {
    match ParseConfigValue(env, "libretro_directory")
    case Some(v) => v
    case None =>
      var default := Join(ConfigPath(env.flatpak, env.home), "cores");
      if env.isDir(default) then default
      else if env.flatpak then "/app/libretro"
      else default
  }

  // ---------------------------------------------------------------- cores

  /** Upper-cased `core_path` values that mean "no explicit core". */
  const Sentinels: set<string> := {"DETECT", "", "NULL"}

  /** How one character of a core name is spelt in a file name. */
  function CoreChar(c: char): char {
    if c == ' ' || c == '-' then '_' else LowerChar(c)
  }

  /** The name lower-cased with ' ' and '-' turned into '_', before the
      parentheses are dropped. */
  function Spell(name: string): (t: string)
    ensures |t| == |name|
    ensures forall k :: 0 <= k < |name| ==> t[k] == CoreChar(name[k])
  {
    ReplaceChar(ReplaceChar(Lower(name), ' ', '_'), '-', '_')
  }

  /** Dropping the parentheses after spelling drops them from the name. */
  lemma SpellThenDelete(name: string)
    ensures |DeleteChar(DeleteChar(Spell(name), '('), ')')| == |DeleteChar(DeleteChar(name, '('), ')')|
    ensures forall k :: 0 <= k < |DeleteChar(DeleteChar(name, '('), ')')| ==>
      DeleteChar(DeleteChar(Spell(name), '('), ')')[k] == CoreChar(DeleteChar(DeleteChar(name, '('), ')')[k])
  {
    var t := Spell(name);
    forall c {
      CoreCharClean(c);
    }
    DeleteMapped(name, t, CoreChar, '(', '(');
    DeleteMapped(DeleteChar(name, '('), DeleteChar(t, '('), CoreChar, ')', ')');
  }

  /** A core name as file names spell it: lower-cased, ' ' and '-' turned
      into '_', '(' and ')' dropped. Each kept character is spelt by
      `CoreChar`, in the order of the name. */
  function Sanitize(name: string): (r: string)
    ensures |r| <= |name|
    ensures forall k :: 0 <= k < |r| ==> r[k] != ' ' && r[k] != '-' && r[k] != '(' && r[k] != ')' && !('A' <= r[k] <= 'Z')
    ensures |r| == |DeleteChar(DeleteChar(name, '('), ')')|
    ensures forall k :: 0 <= k < |r| ==> r[k] == CoreChar(DeleteChar(DeleteChar(name, '('), ')')[k])
  {
    SpellThenDelete(name);
    var p := DeleteChar(DeleteChar(name, '('), ')');
    assert '(' !in p && ')' !in p;
    forall k | 0 <= k < |p| {
      CoreCharClean(p[k]);
    }
    DeleteChar(DeleteChar(Spell(name), '('), ')')
  }

  /** `CoreChar` never yields a blank, a dash or an upper-case letter, and
      yields a parenthesis only for that parenthesis. */
  lemma CoreCharClean(c: char)
    ensures CoreChar(c) != ' ' && CoreChar(c) != '-' && !('A' <= CoreChar(c) <= 'Z')
    ensures CoreChar(c) == '(' <==> c == '('
    ensures CoreChar(c) == ')' <==> c == ')'
  {
  }

  /** A name with every '_', '-' and ' ' removed, as the substring search compares names. */
  function Squash(s: string): (r: string)
    ensures '_' !in r && '-' !in r && ' ' !in r
  {
    var a := DeleteChar(s, '_');
    var b := DeleteChar(a, '-');
    assert '_' !in b;
    DeleteChar(b, ' ')
  }

  /** A directory entry the substring search accepts for a squashed core name. */
  predicate CoreMatch(entry: string, squashed: string) {
    EndsWith(entry, ".so") && Contains(Squash(Lower(entry)), squashed)
  }

  /** The acceptance test of the substring search, as a value. */
  function Accepts(squashed: string): string -> bool {
    entry => CoreMatch(entry, squashed)
  }

  /** The first entry of a directory listing that `accept` takes. */
  function SearchEntries(entries: seq<string>, accept: string -> bool): (r: Option<string>)
    ensures r.None? <==> forall k :: 0 <= k < |entries| ==> !accept(entries[k])
    ensures r.Some? ==> r.value in entries && accept(r.value)
  {
    if entries == [] then None
    else if accept(entries[0]) then Some(entries[0])
    else
      assert forall k :: 1 <= k < |entries| ==> entries[k] == entries[1..][k - 1];
      SearchEntries(entries[1..], accept)
  }

  /** The search returns the entry at `k` when no earlier entry is taken. */
  lemma {:induction false} SearchEntriesAt(entries: seq<string>, accept: string -> bool, k: nat)
    requires k < |entries| && accept(entries[k])
    requires forall j :: 0 <= j < k ==> !accept(entries[j])
    ensures SearchEntries(entries, accept) == Some(entries[k])
  {
    if k > 0 {
      assert !accept(entries[0]);
      assert forall j :: 0 <= j < k - 1 ==> entries[1..][j] == entries[j + 1];
      SearchEntriesAt(entries[1..], accept, k - 1);
    }
  }

  /** A `core_path` that names a core: present, non-empty, and not a sentinel once expanded. */
  predicate Explicit(corePath: Option<string>, home: string) {
    corePath.Some? && corePath.value != [] && Upper(ExpandUser(corePath.value, home)) !in Sentinels
  }

  /** `resolve_core_path`: an explicit core path wins; otherwise, with a core
      name, the cores directory is asked for `<s>_libretro.so`, then `<s>.so`,
      then for the first `.so` entry whose squashed lower-case name contains
      the squashed name, and finally `<s>_libretro.so` is returned unchecked. */
  function ResolveCorePath(corePath: Option<string>, coreName: Option<string>, env: RetroEnv): (r: Option<string>)
    ensures Explicit(corePath, env.home) ==> r == Some(ExpandUser(corePath.value, env.home))
    ensures r.None? <==> !Explicit(corePath, env.home) && (coreName.None? || coreName.value == [])
    ensures !Explicit(corePath, env.home) && r.Some? ==>
      var dir := CoresDirectory(env);
      var s := Sanitize(coreName.value);
      var first := Join(dir, s + "_libretro" + ".so");
      var second := Join(dir, s + ".so");
      var found := SearchEntries(env.listDir(dir), Accepts(DeleteChar(s, '_')));
      if env.isFile(first) then r.value == first
      else if env.isFile(second) then r.value == second
      else if env.isDir(dir) && found.Some? then r.value == Join(dir, found.value)
      else r.value == first
  {
    if Explicit(corePath, env.home) then Some(ExpandUser(corePath.value, env.home))
    else if coreName.None? || coreName.value == [] then None
    else
      // The cores directory is never empty, so the source's final `return None` is unreachable.
      var dir := CoresDirectory(env);
      var s := Sanitize(coreName.value);
      var first := Join(dir, s + "_libretro" + ".so");
      var second := Join(dir, s + ".so");
      if env.isFile(first) then Some(first)
      else if env.isFile(second) then Some(second)
      else if env.isDir(dir) && SearchEntries(env.listDir(dir), Accepts(DeleteChar(s, '_'))).Some? then
        Some(Join(dir, SearchEntries(env.listDir(dir), Accepts(DeleteChar(s, '_'))).value))
      else Some(first)
  }

  lemma LowerKeeps(s: string)
    requires forall k :: 0 <= k < |s| ==> !('A' <= s[k] <= 'Z')
    ensures Lower(s) == s
  {
    assert forall k :: 0 <= k < |s| ==> Lower(s)[k] == s[k];
  }

  lemma ReplaceKeeps(s: string, a: char, b: char)
    requires a !in s
    ensures ReplaceChar(s, a, b) == s
  {
    assert forall k :: 0 <= k < |s| ==> ReplaceChar(s, a, b)[k] == s[k];
  }

  /** Sanitising is idempotent: a sanitised name is its own sanitised form. */
  lemma SanitizeIdempotent(name: string)
    ensures Sanitize(Sanitize(name)) == Sanitize(name)
  {
    var s := Sanitize(name);
    LowerKeeps(s);
    assert ' ' !in s && '-' !in s && '(' !in s && ')' !in s;
    ReplaceKeeps(s, ' ', '_');
    ReplaceKeeps(s, '-', '_');
  }

  /** Squashing a lower-case suffix onto a sanitised name squashes each part. */
  lemma SquashSanitized(s: string, ext: string)
    requires forall k :: 0 <= k < |s| ==> s[k] != ' ' && s[k] != '-' && s[k] != '(' && s[k] != ')' && !('A' <= s[k] <= 'Z')
    requires forall k :: 0 <= k < |ext| ==> !('A' <= ext[k] <= 'Z')
    ensures Squash(Lower(s + ext)) == DeleteChar(s, '_') + Squash(ext)
  {
    LowerKeeps(s + ext);
    var a := DeleteChar(s, '_');
    DeleteAppend(s, ext, '_');
    assert '-' !in a && ' ' !in a;
    DeleteAppend(a, DeleteChar(ext, '_'), '-');
    DeleteAppend(a, DeleteChar(DeleteChar(ext, '_'), '-'), ' ');
  }

  lemma SquashEntry(s: string, mid: string)
    requires forall k :: 0 <= k < |s| ==> s[k] != ' ' && s[k] != '-' && s[k] != '(' && s[k] != ')' && !('A' <= s[k] <= 'Z')
    requires forall k :: 0 <= k < |mid| ==> !('A' <= mid[k] <= 'Z')
    ensures Squash(Lower(s + mid + ".so")) == DeleteChar(s, '_') + Squash(mid + ".so")
  {
    var ext := mid + ".so";
    assert s + mid + ".so" == s + ext;
    assert forall k :: |mid| <= k < |ext| ==> ext[k] in ".so";
    SquashSanitized(s, ext);
  }

  lemma EndsWithSo(s: string, mid: string)
    ensures EndsWith(s + mid + ".so", ".so")
  {
    var e := s + mid + ".so";
    assert e[|e| - 3..] == ".so";
  }

  /** Every entry named `<s><lower-case text>.so` for the sanitised name `s`
      passes the substring search; the two exact candidates `<s>_libretro.so`
      and `<s>.so` are such entries, so trying them first decides only which
      file wins, never whether one is found. */
  lemma CandidatesMatch(name: string, mid: string)
    requires forall k :: 0 <= k < |mid| ==> !('A' <= mid[k] <= 'Z')
    ensures CoreMatch(Sanitize(name) + mid + ".so", DeleteChar(Sanitize(name), '_'))
  {
    var s := Sanitize(name);
    SquashEntry(s, mid);
    var x := DeleteChar(s, '_');
    ContainsAt(x + Squash(mid + ".so"), x, 0);
    EndsWithSo(s, mid);
  }

  // ---------------------------------------------------------------- playlists

  /** What iterating `playlist["items"]` yields to the item test, or the
      TypeError Python raises: `"items" in playlist` fails on a number, a
      boolean or null, and indexing a list or a string with "items" fails.
      Iterating an object or a string yields strings, which are never items. */
  function PlaylistItems(pl: JValue): (r: Result<seq<JValue>>)
    ensures r.Ok? && r.value != [] ==> Get(pl, "items") == Some(JArr(r.value))
  {
    match pl
    case JObj(_) =>
      (match Get(pl, "items")
       case None => Ok([])
       case Some(v) => Elements(v))
    case JArr(xs) => if JStr("items") in xs then Err("TypeError") else Ok([])
    case JStr(t) => if Contains(t, "items") then Err("TypeError") else Ok([])
    case _ => Err("TypeError")
  }

  /** The record a playlist item yields: an object whose `path` and `label`
      are non-empty strings, with its `core_path` and `core_name` or "". */
  function ItemEntry(item: JValue): (r: Option<GameEntry>)
    ensures r.Some? <==> StrField(item, "path") != [] && StrField(item, "label") != []
    ensures r.Some? ==> Get(item, "path") == Some(JStr(r.value.id)) && Get(item, "label") == Some(JStr(r.value.title))
    ensures r.Some? ==> r.value.source == RetroArch(StrField(item, "core_path"), StrField(item, "core_name"))
  {
    var path := StrField(item, "path");
    var title := StrField(item, "label");
    if path != [] && title != [] then
      Some(GameEntry(path, title, RetroArch(StrField(item, "core_path"), StrField(item, "core_name"))))
    else None
  }

  /** A record `ItemEntry` can produce: non-empty id and title from RetroArch. */
  predicate GoodEntry(g: GameEntry) {
    g.id != [] && g.title != [] && g.source.RetroArch?
  }

  function ItemsEntries(items: seq<JValue>): (r: seq<GameEntry>)
    ensures |r| <= |items|
    ensures forall g :: g in r <==> exists x :: x in items && ItemEntry(x) == Some(g)
    ensures forall g :: g in r ==> GoodEntry(g)
  {
    if items == [] then []
    else
      assert forall x :: x in items <==> x == items[0] || x in items[1..];
      var e := ItemEntry(items[0]);
      (if e.Some? then [e.value] else []) + ItemsEntries(items[1..])
  }

  /** `g` is a record of item `x` of the decoded playlist file `f` of `dir`. */
  predicate Listed(env: RetroEnv, dir: string, f: string, g: GameEntry) {
    EndsWith(f, ".lpl") && env.readJson(Join(dir, f)).Decoded? &&
    var items := PlaylistItems(env.readJson(Join(dir, f)).value);
    items.Ok? && exists x :: x in items.value && ItemEntry(x) == Some(g)
  }

  /** The records of one directory entry of the playlists directory: none for
      a name without `.lpl` or a malformed file; a listed file that cannot be
      opened, or a playlist of the wrong shape, aborts the listing. */
  function PlaylistFile(env: RetroEnv, dir: string, f: string): (r: Result<seq<GameEntry>>)
    ensures !EndsWith(f, ".lpl") || env.readJson(Join(dir, f)).Malformed? ==> r == Ok([])
    ensures r.Err? <==> (EndsWith(f, ".lpl") && (env.readJson(Join(dir, f)).Missing? ||
                          (env.readJson(Join(dir, f)).Decoded? && PlaylistItems(env.readJson(Join(dir, f)).value).Err?)))
    ensures r.Ok? ==> forall g :: g in r.value <==> Listed(env, dir, f, g)
    ensures r.Ok? ==> forall g :: g in r.value ==> GoodEntry(g)
  {
    if !EndsWith(f, ".lpl") then Ok([])
    else
      match env.readJson(Join(dir, f))
      case Missing => Err("OSError")
      case Malformed => Ok([])
      case Decoded(pl) =>
        match PlaylistItems(pl)
        case Err(e) => Err(e)
        case Ok(items) => Ok(ItemsEntries(items))
  }

  /** The records of the listed files in order; the first failure aborts. */
  function FilesEntries(env: RetroEnv, dir: string, files: seq<string>): (r: Result<seq<GameEntry>>)
    ensures r.Ok? <==> forall f :: f in files ==> PlaylistFile(env, dir, f).Ok?
    ensures r.Ok? ==> forall g :: g in r.value <==> exists f :: f in files && Listed(env, dir, f, g)
    ensures r.Ok? ==> forall g :: g in r.value ==> GoodEntry(g)
  {
    if files == [] then Ok([])
    else
      assert forall x :: x in files <==> x == files[0] || x in files[1..];
      match PlaylistFile(env, dir, files[0])
      case Err(e) => Err(e)
      case Ok(es) =>
        match FilesEntries(env, dir, files[1..])
        case Err(e) => Err(e)
        case Ok(rest) => Ok(es + rest)
  }

  /** The scan of an existing playlists directory `dir`: the records of
      every playlist in it, or a failure when one listed playlist cannot be
      opened or has the wrong shape. */
  function ScanPlaylists(env: RetroEnv, dir: string): (r: Result<seq<GameEntry>>)
    ensures r.Ok? <==> forall f :: f in env.listDir(dir) ==> PlaylistFile(env, dir, f).Ok?
    ensures r.Ok? ==> forall g :: g in r.value ==> GoodEntry(g)
    ensures r.Ok? ==> forall g :: g in r.value <==> exists f :: f in env.listDir(dir) && Listed(env, dir, f, g)
  {
    FilesEntries(env, dir, env.listDir(dir))
  }

  /** `list_retroarch_games`: nothing when the playlists path does not
      exist, the `NotADirectoryError` of listing it when it is not a
      directory, else the scan of that directory. */
  function ListRetroArchGames(env: RetroEnv): (r: Result<seq<GameEntry>>)
    ensures !env.exists_(PlaylistDirectory(env)) ==> r == Ok([])
    ensures env.exists_(PlaylistDirectory(env)) && !env.isDir(PlaylistDirectory(env)) ==> r.Err?
    ensures env.exists_(PlaylistDirectory(env)) && env.isDir(PlaylistDirectory(env)) ==>
      r == ScanPlaylists(env, PlaylistDirectory(env))
    ensures r.Ok? ==> forall g :: g in r.value ==> GoodEntry(g)
  {
    var dir := PlaylistDirectory(env);
    if !env.exists_(dir) then Ok([])
    else if !env.isDir(dir) then Err("NotADirectoryError")
    else ScanPlaylists(env, dir)
  }

  /** A malformed playlist is skipped: the remaining files are listed as if it were absent. */
  lemma MalformedSkipped(env: RetroEnv, dir: string, f: string, rest: seq<string>)
    requires env.readJson(Join(dir, f)).Malformed?
    ensures FilesEntries(env, dir, [f] + rest) == FilesEntries(env, dir, rest)
  {
    assert ([f] + rest)[1..] == rest;
    match FilesEntries(env, dir, rest)
    case Err(_) =>
    case Ok(es) => assert [] + es == es;
  }
}
