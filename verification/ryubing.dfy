/** The Ryubing (Nintendo Switch emulator) adapter (launchers/ryubing.py):
    where games are looked for, which files count, and how a title is
    derived from a file name. */
module Ryubing {
  import opened Wrappers
  import opened Text
  import opened Paths
  import opened Json

  // ---------------------------------------------------------------- game directories

  /** The directory used when the configuration names none. */
  function DefaultGamesDir(home: string): string {
    ExpandUser("~/.var/app/io.github.ryubing.Ryujinx/data/Ryujinx/games", home)
  }

  /** A list of strings as a JSON value. */
  function JStrs(ss: seq<string>): (r: seq<JValue>)
    ensures |r| == |ss| && forall k :: 0 <= k < |ss| ==> r[k] == JStr(ss[k])
  {
    if ss == [] then [] else [JStr(ss[0])] + JStrs(ss[1..])
  }

  /** The strings of a list of JSON strings; nothing if any item is not one. */
  function Strings(items: seq<JValue>): (r: Option<seq<string>>)
    ensures r.Some? ==> JStrs(r.value) == items
    ensures r.None? ==> exists k :: 0 <= k < |items| && !items[k].JStr?
  {
    if items == [] then Some([])
    else if !items[0].JStr? then None
    else
      match Strings(items[1..])
      case None => None
      case Some(rest) =>
        assert JStrs([items[0].s] + rest) == [items[0]] + items[1..];
        Some([items[0].s] + rest)
  }

  /** `get_ryubing_game_dirs` given the state of the configuration file: a
      non-empty `game_dirs` list is used as it stands; a missing or
      undecodable file, or a missing or empty list, gives the default
      directory. Reading `game_dirs` from a decoded value that is not an
      object fails, and so (in this model) does a non-empty `game_dirs` that
      is not a list of strings. */
  function GameDirs(config: FileState, home: string): (r: Result<seq<string>>)
    ensures config.Missing? || config.Malformed? ==> r == Ok([DefaultGamesDir(home)])
    ensures config.Decoded? && !config.value.JObj? ==> r.Err?
    ensures config.Decoded? && config.value.JObj? && !(exists v :: Get(config.value, "game_dirs") == Some(v) && Truthy(v)) ==>
      r == Ok([DefaultGamesDir(home)])
    ensures r.Ok? && r.value != [DefaultGamesDir(home)] ==>
      config.Decoded? && Get(config.value, "game_dirs") == Some(JArr(JStrs(r.value)))
  {
    match config
    case Missing => Ok([DefaultGamesDir(home)])
    case Malformed => Ok([DefaultGamesDir(home)])
    case Decoded(v) =>
      if !v.JObj? then Err("AttributeError")
      else
        match Get(v, "game_dirs")
        case None => Ok([DefaultGamesDir(home)])
        case Some(dirs) =>
          if !Truthy(dirs) then Ok([DefaultGamesDir(home)])
          else if !dirs.JArr? then Err("unsupported game_dirs")
          else
            match Strings(dirs.items)
            case None => Err("unsupported game_dirs")
            case Some(ds) => Ok(ds)
  }

  /** A non-empty list of directories in the configuration is used verbatim. */
  lemma ConfiguredDirsUsed(config: JValue, ds: seq<string>, home: string)
    requires config.JObj? && Get(config, "game_dirs") == Some(JArr(JStrs(ds))) && ds != []
    ensures GameDirs(Decoded(config), home) == Ok(ds)
  {
    StringsOfJStrs(ds);
  }

  lemma {:induction false} StringsOfJStrs(ds: seq<string>)
    ensures Strings(JStrs(ds)) == Some(ds)
  {
    if ds != [] {
      var items := JStrs(ds);
      assert items[1..] == JStrs(ds[1..]);
      StringsOfJStrs(ds[1..]);
      assert [ds[0]] + ds[1..] == ds;
    }
  }

  // ---------------------------------------------------------------- files and titles

  /** Switch game file extensions. */
  const Extensions: seq<string> := [".nsp", ".xci", ".nca", ".nro"]

  /** The lower-cased file name ends with one of the game extensions. */
  predicate HasGameExt(file: string) {
    exists k :: 0 <= k < |Extensions| && EndsWith(Lower(file), Extensions[k])
  }

  /** Where the bracketed tag opened by the `[` at the head of `s` ends: the
      first `]` after it, provided no line break comes first. */
  function TagEnd(s: string): (r: Option<nat>)
    requires s != [] && s[0] == '['
    ensures r.Some? ==> 0 < r.value < |s| && s[r.value] == ']'
    ensures r.Some? ==> forall k :: 0 < k < r.value ==> s[k] != ']' && s[k] != '\n'
    ensures r.None? ==> NoCloseBeforeBreak(s[1..])
  {
    var j := FindIn(s, {']', '\n'}, 1);
    if j < |s| && s[j] == ']' then Some(j)
    else
      assert forall k :: 0 <= k < |s| - 1 ==> s[1..][k] == s[k + 1];
      None
  }

  /** Every `]` of `s` comes after a line break. */
  predicate NoCloseBeforeBreak(s: string) {
    forall j :: 0 <= j < |s| && s[j] == ']' ==> '\n' in s[..j]
  }

  /** No `[` of `s` is followed by a `]` on the same line: no bracketed tag
      is left. */
  predicate NoTag(s: string) {
    forall i, j :: 0 <= i < j < |s| && s[i] == '[' && s[j] == ']' ==> '\n' in s[i + 1..j]
  }

  /** Bracketed tags removed: scanning left to right, each `[` that has
      a `]` later on its line is removed together with everything up to the
      first such `]`. */
  function RemoveTags(s: string): (r: string)
    ensures NoTag(r)
    ensures NoCloseBeforeBreak(s) ==> NoCloseBeforeBreak(r)
    ensures |r| <= |s|
    decreases |s|
  {
    if s == [] then []
    else if s[0] == '[' && TagEnd(s).Some? then
      TagBeforeBreak(s);
      RemoveTags(s[TagEnd(s).value + 1..])
    else
      var rest := RemoveTags(s[1..]);
      if NoCloseBeforeBreak(s) then
        CloseAfterBreak(s);
        ConsNoClose(s[0], rest);
        ConsNoTag(s[0], rest);
        [s[0]] + rest
      else
        ConsNoTag(s[0], rest);
        [s[0]] + rest
  }

  /** A `[` whose tag closes on its own line is a `]` before any line break. */
  lemma TagBeforeBreak(s: string)
    requires s != [] && s[0] == '[' && TagEnd(s).Some?
    ensures !NoCloseBeforeBreak(s)
  {
    var j := TagEnd(s).value;
    assert forall k :: 0 <= k < j ==> s[..j][k] == s[k];
  }

  /** Dropping a first character other than a line break keeps `]`s after breaks. */
  lemma CloseAfterBreak(s: string)
    requires s != [] && NoCloseBeforeBreak(s)
    ensures s[0] != ']'
    ensures s[0] != '\n' ==> NoCloseBeforeBreak(s[1..])
  {
    assert s[..0] == [];
    if s[0] != '\n' {
      forall j | 0 <= j < |s| - 1 && s[1..][j] == ']' ensures '\n' in s[1..][..j] {
        assert s[j + 1] == ']';
        var k :| 0 <= k < j + 1 && s[..j + 1][k] == '\n';
        assert s[1..][..j][k - 1] == '\n';
      }
    }
  }

  lemma ConsNoClose(c: char, rest: string)
    requires c != ']' && (c == '\n' || NoCloseBeforeBreak(rest))
    ensures NoCloseBeforeBreak([c] + rest)
  {
    var r := [c] + rest;
    forall j | 0 <= j < |r| && r[j] == ']' ensures '\n' in r[..j] {
      if c == '\n' {
        assert r[..j][0] == '\n';
      } else {
        assert rest[j - 1] == ']';
        var k :| 0 <= k < j - 1 && rest[..j - 1][k] == '\n';
        assert r[..j][k + 1] == '\n';
      }
    }
  }

  lemma ConsNoTag(c: char, rest: string)
    requires NoTag(rest) && (c == '[' ==> NoCloseBeforeBreak(rest))
    ensures NoTag([c] + rest)
  {
    var r := [c] + rest;
    forall i, j | 0 <= i < j < |r| && r[i] == '[' && r[j] == ']' ensures '\n' in r[i + 1..j] {
      if i == 0 {
        assert rest[j - 1] == ']';
        var k :| 0 <= k < j - 1 && rest[..j - 1][k] == '\n';
        assert r[i + 1..j][k] == '\n';
      } else {
        assert rest[i - 1] == '[' && rest[j - 1] == ']';
        var k :| 0 <= k < j - i - 1 && rest[i..j - 1][k] == '\n';
        assert r[i + 1..j][k] == '\n';
      }
    }
  }

  /** Any piece of text without tags is itself without tags. */
  lemma NoTagSlice(s: string, a: nat, b: nat)
    requires a <= b <= |s| && NoTag(s)
    ensures NoTag(s[a..b])
  {
    var t := s[a..b];
    forall i, j | 0 <= i < j < |t| && t[i] == '[' && t[j] == ']' ensures '\n' in t[i + 1..j] {
      assert s[a + i] == '[' && s[a + j] == ']';
      var k :| 0 <= k < j - i - 1 && s[a + i + 1..a + j][k] == '\n';
      assert t[i + 1..j][k] == '\n';
    }
  }

  /** The title `list_ryubing_games` gives a file: the name without its last
      extension, tags removed, surrounding whitespace stripped. */
  function Title(file: string): (r: string)
    ensures r == [] || (r[0] !in Whitespace && r[|r| - 1] !in Whitespace)
    ensures NoTag(r)
  {
    var t := RemoveTags(SplitExt(file).0);
    StripNoTag(t);
    Strip(t)
  }

  /** Stripping text without tags leaves text without tags. */
  lemma StripNoTag(t: string)
    requires NoTag(t)
    ensures NoTag(Strip(t))
  {
    StripCharsSlice(t, Whitespace);
    var a := |t| - |TrimLeft(t, Whitespace)|;
    NoTagSlice(t, a, a + |Strip(t)|);
  }

  /** Text without `[` passes through tag removal unchanged. */
  lemma {:induction false} RemoveTagsPlain(p: string, x: string)
    requires '[' !in p
    ensures RemoveTags(p + x) == p + RemoveTags(x)
    decreases |p|
  {
    if p == [] {
      assert p + x == x;
    } else {
      var s := p + x;
      assert s[0] == p[0] && s[1..] == p[1..] + x;
      RemoveTagsPlain(p[1..], x);
      assert p == [p[0]] + p[1..];
    }
  }

  /** A tag without `]` or a line break inside is removed whole. */
  lemma RemoveOneTag(t: string, x: string)
    requires ']' !in t && '\n' !in t
    ensures RemoveTags("[" + t + "]" + x) == RemoveTags(x)
  {
    var s := "[" + t + "]" + x;
    var j := |t| + 1;
    assert s[j] == ']';
    assert forall k :: 1 <= k < j ==> s[k] == t[k - 1];
    FindInAt(s, {']', '\n'}, 1, j);
    assert TagEnd(s) == Some(j);
    assert s[j + 1..] == x;
  }

  lemma TitleFrom(file: string, stem: string, cleaned: string, title: string)
    requires SplitExt(file).0 == stem && RemoveTags(stem) == cleaned && Strip(cleaned) == title
    ensures Title(file) == title
  {
  }

  lemma TaggedStem(name: string, tags: string, ext: string)
    requires name != [] && name[0] !in Whitespace && '.' !in ext
    ensures SplitExt(name + " " + tags + "." + ext).0 == name + " " + tags
  {
    var stem := name + " " + tags;
    assert stem[|name|] == ' ';
    SplitExtOf(stem, ext);
  }

  lemma TwoTagsRemoved(name: string, t1: string, t2: string)
    requires '[' !in name
    requires ']' !in t1 && '\n' !in t1 && ']' !in t2 && '\n' !in t2
    ensures RemoveTags(name + " " + ("[" + t1 + "]" + ("[" + t2 + "]" + []))) == name + " "
  {
    var tags := "[" + t1 + "]" + ("[" + t2 + "]" + []);
    RemoveOneTag(t2, []);
    RemoveOneTag(t1, "[" + t2 + "]" + []);
    assert '[' !in name + " ";
    RemoveTagsPlain(name + " ", tags);
    assert name + " " + tags == (name + " ") + tags;
    assert (name + " ") + [] == name + " ";
  }

  lemma TrailingBlank(name: string)
    requires name != [] && name[0] !in Whitespace && name[|name| - 1] !in Whitespace
    ensures Strip(name + " ") == name
  {
    StripCharsPadded([], name, " ", Whitespace);
    assert [] + name + " " == name + " ";
    StripCharsKeeps(name, Whitespace);
  }

  /** "Super Game [T-En][Fix].nro" has title "Super Game": a name followed by
      a blank, two tags and an extension has the name as its title. */
  lemma TaggedTitle(name: string, t1: string, t2: string, ext: string)
    requires name != [] && name[0] !in Whitespace && name[|name| - 1] !in Whitespace && '[' !in name
    requires ']' !in t1 && '\n' !in t1 && ']' !in t2 && '\n' !in t2
    requires '.' !in ext
    ensures Title(name + " [" + t1 + "][" + t2 + "]." + ext) == name
  {
    var tags := "[" + t1 + "]" + ("[" + t2 + "]" + []);
    var file := name + " [" + t1 + "][" + t2 + "]." + ext;
    assert file == name + " " + tags + "." + ext;
    TaggedStem(name, tags, ext);
    TwoTagsRemoved(name, t1, t2);
    TrailingBlank(name);
    TitleFrom(file, name + " " + tags, name + " ", name);
  }

  /** "[X].nsp" has the empty title: a file named by a tag alone is still listed. */
  lemma TagOnlyTitle(t: string, ext: string)
    requires ']' !in t && '\n' !in t && '.' !in ext
    ensures Title("[" + t + "]." + ext) == []
  {
    var stem := "[" + t + "]";
    assert "[" + t + "]." + ext == stem + "." + ext;
    assert stem[0] == '[';
    SplitExtOf(stem, ext);
    RemoveOneTag(t, []);
    assert stem + [] == stem;
  }

  // ---------------------------------------------------------------- listing

  /** One step of `os.walk`: a directory and the names of the files in it. */
  datatype WalkStep = WalkStep(root: string, files: seq<string>)

  /** What the file system reports: whether a path exists, and the walk below it. */
  datatype RyubingFiles = RyubingFiles(exists_: string -> bool, walk: string -> seq<WalkStep>)

  /** The (path, title) record of a game file found in directory `root`. */
  function Record(root: string, file: string): (string, string) {
    (Join(root, file), Title(file))
  }

  /** The records of the game files among `files`, in listing order. */
  function FilesGames(root: string, files: seq<string>): (r: seq<(string, string)>)
    ensures |r| <= |files|
  {
    if files == [] then []
    else (if HasGameExt(files[0]) then [Record(root, files[0])] else []) + FilesGames(root, files[1..])
  }

  /** A directory's records are exactly those of its game files. */
  lemma {:induction false} FilesGamesMembers(root: string, files: seq<string>)
    ensures forall g :: g in FilesGames(root, files) <==> exists f :: f in files && HasGameExt(f) && g == Record(root, f)
    decreases |files|
  {
    if files != [] {
      FilesGamesMembers(root, files[1..]);
      assert forall x :: x in files <==> x == files[0] || x in files[1..];
    }
  }

  function WalkGames(steps: seq<WalkStep>): (r: seq<(string, string)>)
    ensures forall g :: g in r <==> exists w :: w in steps && g in FilesGames(w.root, w.files)
  {
    if steps == [] then []
    else
      assert forall x :: x in steps <==> x == steps[0] || x in steps[1..];
      FilesGames(steps[0].root, steps[0].files) + WalkGames(steps[1..])
  }

  function DirsGames(fs: RyubingFiles, dirs: seq<string>): (r: seq<(string, string)>)
    ensures forall g :: g in r <==> exists d :: d in dirs && fs.exists_(d) && g in WalkGames(fs.walk(d))
  {
    if dirs == [] then []
    else
      assert forall x :: x in dirs <==> x == dirs[0] || x in dirs[1..];
      (if fs.exists_(dirs[0]) then WalkGames(fs.walk(dirs[0])) else []) + DirsGames(fs, dirs[1..])
  }

  /** `list_ryubing_games`: every game file below every existing game
      directory, with its full path as id and its derived title. */
  function ListRyubingGames(config: FileState, home: string, fs: RyubingFiles): (r: Result<seq<(string, string)>>)
    ensures r.Ok? <==> GameDirs(config, home).Ok?
    ensures r.Ok? ==> forall g :: g in r.value <==>
      exists d :: d in GameDirs(config, home).value && fs.exists_(d) && g in WalkGames(fs.walk(d))
  {
    match GameDirs(config, home)
    case Err(e) => Err(e)
    case Ok(dirs) => Ok(DirsGames(fs, dirs))
  }

  /** The title of a listed game is the title of the last segment of its id. */
  lemma TitleFromId(root: string, files: seq<string>, g: (string, string))
    requires root != [] && forall f :: f in files ==> '/' !in f
    requires g in FilesGames(root, files)
    ensures g.1 == Title(LastSegment(g.0)) && HasGameExt(LastSegment(g.0))
  {
    FilesGamesMembers(root, files);
    var f :| f in files && HasGameExt(f) && g == Record(root, f);
    LastSegmentOfJoin(root, f);
  }
}
