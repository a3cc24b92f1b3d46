# LutrisToSunshine, modelled in Dafny

LutrisToSunshine collects the games of several Linux launchers and adds them as
apps to the Sunshine game-streaming host. The launchers are Lutris, Heroic,
Bottles, Steam, Ryubing and RetroArch. This project models the pure decision
and normalisation logic of the program and proves properties of it:

- how the interactive answers are read: the yes/no answer and the game
  selection with its ranges and its "add all" number;
- how each launcher adapter turns what it reads into game records:
  - Steam `libraryfolders.vdf` and app manifests;
  - Ryubing game files and their titles;
  - RetroArch `retroarch.cfg`, playlists and core libraries;
  - Heroic store files;
  - Bottles `bottles-cli` output;
  - Lutris `lutris -lo --json` output;
- how a Sunshine app entry is built and appended;
- how a cover is resolved through SteamGridDB, and how the API key is kept;
- the older single-file script `lutristosunshine.py`: its own listing,
  selection, cover download, apps-file loading and append loop.

Everything the program learns from the outside world is a parameter of the
model:

- probe results (`flatpak list | grep …`, `which …`, `ps aux …`);
- command results, as an exit status plus standard output;
- directory listings, file existence and file contents;
- decoded JSON, as the `Json.JValue` datatype;
- HTTP replies;
- what the user types.

Python exceptions that the code does not catch become the `Err` side of
`Wrappers.Result`. `None` becomes `Wrappers.Option`.

One module per source file:

| module | source |
|---|---|
| `Selection` | utils/input.py |
| `Steam` | launchers/steam.py |
| `Ryubing` | launchers/ryubing.py |
| `RetroArch` | launchers/retroarch.py |
| `Heroic` | launchers/heroic.py |
| `Utils` | utils/utils.py |
| `Bottles` | launchers/bottles.py |
| `Lutris` | launchers/lutris.py |
| `Sunshine` | sunshine/sunshine.py |
| `Covers` | utils/steamgriddb.py |
| `Legacy` | lutristosunshine.py |

Shared modules:

- `Wrappers`: `Option`, `Result`.
- `Text`: Python's `strip`, `lower`, `split`, `join`, `int` and `str` on ASCII text.
- `Paths`: `os.path.join`, `splitext`, `expanduser`.
- `Json`: decoded JSON values, `dict.get`, truthiness and subscription.
- `Games`: the uniform game record.

## Model

| member | source | states |
|---|---|---|
| Selection.YesNo | utils/input.py:15-22 | The answer is True exactly for "y"/"yes" and False exactly for "n"/"no", after stripping and lower-casing. Every other answer is a ValueError. |
| Selection.YesNoPadded | utils/input.py:17 | Surrounding whitespace never changes how a yes/no answer is read. |
| Selection.YesNoIgnoresCase | utils/input.py:17 | Two answers that differ only in letter case are read alike. |
| Selection.Range | utils/input.py:45 | `range(lo, hi)`: hi-lo consecutive integers starting at lo, or none when hi <= lo. |
| Selection.RangeMembers | utils/input.py:45 | `range(lo, hi)` holds exactly the integers from lo up to, not including, hi. |
| Selection.RangeIndices | utils/input.py:44-45 | A range part is accepted iff it has exactly two pieces and both are integers. It then asks for exactly the indices from the first minus one up to, not including, the second. |
| Selection.NumberIndices | utils/input.py:47 | A number part is accepted iff it is an integer, and it asks for that number minus one. |
| Selection.PartIndices | utils/input.py:42-47 | A part that is empty once stripped is rejected. A part with `-` is read as a range, any other as a number, with the acceptance conditions of each. |
| Selection.AllIndices | utils/input.py:37-38 | The "add all" result holds exactly the indices 0 .. n-1. |
| Selection.Collect | utils/input.py:40-47 | Reading the parts succeeds iff every part is well formed. It then yields exactly the indices some part asks for. |
| Selection.InRange | utils/input.py:49-51 | The bounds test passes iff every index is in [0, n). The result is the set of the indices, so duplicates collapse. Otherwise it is a ValueError. |
| Selection.SelectionValidator | utils/input.py:36-51 | The stripped answer `str(n+1)` selects every game. Any accepted selection holds only indices of listed games. |
| Selection.SelectionMeaning | utils/input.py:40-51 | For any other answer, the validator accepts iff every comma part is accepted by `Selection.PartIndices` and every index asked for is in range. It then returns exactly the indices asked for. |
| Selection.MalformedPartRejected | utils/input.py:41-47 | A part that is empty once stripped, a part without `-` that is not a number, or a part with other than two `-` pieces is rejected (`ValueError`), and with it the whole answer. |
| Selection.NumberPart | utils/input.py:46-47 | A part "a" contributes index a-1. |
| Selection.RangePart | utils/input.py:43-45 | A part "a-b" contributes the indices a-1 .. b-1. |
| Selection.ReversedRangeSelectsNothing | utils/input.py:43-50 | A reversed range such as "4-2" is accepted and selects nothing. |
| Selection.RangeAndNumber | utils/input.py:40-50 | "a-b,c" with in-range numbers selects exactly {a-1 .. b-1} ∪ {c-1}. For example, "2-4,7" on ten games gives {1,2,3,6}. |
| Steam.ParseVdfValue | launchers/steam.py:26-29 | A value is found iff the line has the shape `ws "key" ws "value"`. The value never contains a double quote. A line laid out from a well-formed key and value gives back exactly that value. |
| Steam.ParseVdfValueOfRender | launchers/steam.py:26-29 | For every well-formed key/value line, the parsed value is the value written into the line. |
| Steam.MatchVdfRender | launchers/steam.py:28 | Every line built as indent, quoted key, blanks, quoted value and any rest is matched. The match returns that key and value (the match inverts line rendering). |
| Steam.ParseLibraryFolders | launchers/steam.py:31-45 | A missing file yields no library paths. A file laid out from quote-free entries yields exactly the values of its `"path"` entries, in file order. |
| Steam.ParseLibraryFoldersOfDoc | launchers/steam.py:31-45 | For every document of quote-free entries, the library paths are the values of the `"path"` entries, in order. |
| Steam.FindPaths | launchers/steam.py:42-43 | No path found holds a quote. Its partner `Steam.FindPathsDoc` states which paths are found. |
| Steam.SteamLibraries | launchers/steam.py:74-79 | There is always at least one library: those the library file lists, or, when it lists none, `<root>/steamapps`. |
| Steam.FindPathsDoc | launchers/steam.py:42-43 | Over any VDF document, the scan returns the values of the `"path"` keys, in document order, and nothing else. |
| Steam.ParseAppManifest | launchers/steam.py:47-65 | A result has a non-empty id and name, neither containing a quote. A missing file gives none. |
| Steam.ManifestStops | launchers/steam.py:60-61 | Once the lines read give both id and name, later lines never change the result. |
| Steam.NoNameWithoutOwnLine | launchers/steam.py:56-59 | A `"name"` line that also contains `"appid"` never sets the name. So such a manifest yields nothing. |
| Steam.ManifestSources | launchers/steam.py:55-59 | The id comes from some `"appid"` line. The name comes from some line holding `"name"` but not `"appid"`. |
| Steam.ManifestOfTwoLines | launchers/steam.py:55-64 | An id line followed by a name line gives that (id, name), whatever follows. |
| Steam.GetSteamRoot | launchers/steam.py:19-24 | The root is `~/.var/app/com.valvesoftware.Steam/.steam/steam` for Flatpak, else `~/.steam/steam`. |
| Steam.FileGames | launchers/steam.py:87-94 | A directory entry yields a game iff it is an `appmanifest_*.acf` file, its manifest parses, and the name does not start with an excluded prefix (compared in lower case). |
| Steam.DirGames | launchers/steam.py:86-94 | A directory yields exactly the games its manifest files yield. |
| Steam.LibraryGames | launchers/steam.py:84-94 | A library yields exactly the games of the manifests in `<library>/steamapps`; none when that path does not exist; an error (`NotADirectoryError`) exactly when it exists but is not a directory. |
| Steam.LibrariesGames | launchers/steam.py:83-94 | The listing succeeds iff every library can be listed, and is then the union of the libraries' games. Every game has an id and a name and is not excluded. |
| Steam.ListSteamGames | launchers/steam.py:67-96 | No Steam install yields no games. Otherwise the listing succeeds iff every library can be listed, and the games are exactly those of the libraries listed in `config/libraryfolders.vdf`, or of the fallback library. |
| Steam.FallbackLibrary | launchers/steam.py:77-85 | Without listed libraries, the listing is that of the one library `<root>/steamapps`, whose scanned directory is `<root>/steamapps/steamapps`. |
| Steam.FallbackMissesRoot | launchers/steam.py:77-85 | So without listed libraries and without that doubled directory, nothing is listed, whatever `<root>/steamapps` holds. |
| Steam.IntendedLibraries | launchers/steam.py:76-79 | The corrected library list: the listed libraries when there are any, else the root itself. |
| Steam.IntendedFallback | launchers/steam.py:76-85 | With the corrected fallback, the listing fails only when `<root>/steamapps` is not a directory, and lists exactly the manifests in `<root>/steamapps`. |
| Ryubing.GameDirs | launchers/ryubing.py:15-28 | A missing or undecodable config, or a missing or empty `game_dirs`, gives the single default directory. A config that is not an object raises. |
| Ryubing.ConfiguredDirsUsed | launchers/ryubing.py:22-24 | A non-empty `game_dirs` list of strings is used verbatim. |
| Ryubing.RemoveTags | launchers/ryubing.py:47 | No `[` … `]` pair on one line survives tag removal, and the text never grows. |
| Ryubing.Title | launchers/ryubing.py:47 | A title has no leading or trailing whitespace and no `[` later followed by `]` on the same line. |
| Ryubing.RemoveOneTag | launchers/ryubing.py:47 | A bracketed tag without `]` or a line break inside is removed whole. |
| Ryubing.RemoveTagsPlain | launchers/ryubing.py:47 | Text without `[` passes through tag removal unchanged. |
| Ryubing.TaggedTitle | launchers/ryubing.py:47 | "Super Game [T-En][Fix].nro" has title "Super Game": a name, a blank, two tags and an extension give the name. |
| Ryubing.TagOnlyTitle | launchers/ryubing.py:47-48 | "[X].nsp" has the empty title, and it is still listed. |
| Ryubing.FilesGamesMembers | launchers/ryubing.py:43-48 | A directory's records are exactly (joined path, title) of its files ending in .nsp, .xci, .nca or .nro (compared in lower case). |
| Ryubing.WalkGames | launchers/ryubing.py:42-48 | A walk yields exactly the records of the game files of every directory visited. |
| Ryubing.DirsGames | launchers/ryubing.py:38-48 | Game directories that do not exist are skipped. The others yield their walks' records. |
| Ryubing.ListRyubingGames | launchers/ryubing.py:30-50 | The listing fails iff reading the directories fails. Otherwise it holds exactly the records of the existing game directories. |
| Ryubing.TitleFromId | launchers/ryubing.py:45-48 | A record's title is the title derived from the last segment of its id, which is a game file name. |
| RetroArch.ConfigPath | launchers/retroarch.py:19-25 | The config directory is the Flatpak sandbox's when Flatpak is installed, else `~/.config/retroarch`. |
| RetroArch.LineValue | launchers/retroarch.py:38-47 | A line yields a value only if it is non-empty, not a comment, starts with the setting and holds `=`. The value is never empty. |
| RetroArch.FirstValue | launchers/retroarch.py:38-48 | A value found in the configuration is never empty. |
| RetroArch.FirstValueNone | launchers/retroarch.py:38-48 | No value iff no line yields one. |
| RetroArch.FirstValueAt | launchers/retroarch.py:38-47 | The first line that yields a value decides the result. |
| RetroArch.ParseConfigValue | launchers/retroarch.py:28-48 | A missing `retroarch.cfg` gives no value. Otherwise the result is the first value its lines give. |
| RetroArch.SettingLineValue | launchers/retroarch.py:42-47 | `key = "value"` yields the value for any setting the key starts with, quotes and blanks stripped. So a longer key also matches. |
| RetroArch.CommentLine | launchers/retroarch.py:40-41 | A `#` line never yields a value. |
| RetroArch.PlaylistDirectory | launchers/retroarch.py:51-58 | A configured `playlist_directory` wins. Otherwise `<config>/playlists`. |
| RetroArch.PlaylistsWithoutConfig | launchers/retroarch.py:33-34 | Without a config file, the playlists are in `<config>/playlists`. |
| RetroArch.ConfiguredValue | launchers/retroarch.py:33-47 | For any setting, a line `key = "value"` whose key starts with it decides the setting, when every line before it yields nothing. |
| RetroArch.ConfiguredPlaylists | launchers/retroarch.py:51-55 | A `playlist_directory = "dir"` line, after lines without a value, gives dir. |
| RetroArch.CoresDirectory | launchers/retroarch.py:61-78 | A configured `libretro_directory` wins. Otherwise `<config>/cores` if it is a directory. Otherwise `/app/libretro` under Flatpak. Otherwise `<config>/cores` all the same. |
| RetroArch.Sanitize | launchers/retroarch.py:92-98 | The sanitised core name is the name with every `(` and `)` removed and each remaining character, in order, lower-cased, with a blank or a dash spelt `_`. So it has no blank, dash, parenthesis or upper-case letter and is never longer. |
| Text.DeleteChar | launchers/retroarch.py:96-97 | Removing a character leaves none of it and brings in no other. A string without it is unchanged. |
| Text.DeleteCounts | launchers/retroarch.py:96-97 | Removal keeps every other character exactly as often as before. |
| Text.DeleteAppend | launchers/retroarch.py:96-97 | Removal distributes over concatenation, so the kept characters stay in their order. |
| RetroArch.SanitizeIdempotent | launchers/retroarch.py:92-98 | Sanitising twice is sanitising once. |
| RetroArch.SearchEntries | launchers/retroarch.py:112-118 | The search finds nothing iff no entry is accepted. Any entry found is listed and accepted. |
| RetroArch.SearchEntriesAt | launchers/retroarch.py:112-118 | The first accepted entry in listing order is the one returned. |
| RetroArch.ResolveCorePath | launchers/retroarch.py:81-124 | An explicit core path (not DETECT, NULL or empty once expanded) is returned expanded. There is no result iff there is no explicit path and no core name. Otherwise the order is `<s>_libretro.so`, then `<s>.so`, then the first matching `.so` entry, then `<s>_libretro.so` unchecked. |
| RetroArch.CandidatesMatch | launchers/retroarch.py:99-118 | Any `.so` entry whose lower-case name starts with the sanitised name `<s>` passes the substring test. The two exact candidates therefore decide only which file wins, not whether one is found. |
| RetroArch.PlaylistItems | launchers/retroarch.py:151-152 | Items come from the playlist's `items` list. A playlist of an unexpected shape raises TypeError. |
| RetroArch.ItemEntry | launchers/retroarch.py:153-167 | An item yields a record iff its `path` and `label` are non-empty. The record carries them with `core_path` and `core_name`, or "". |
| RetroArch.ItemsEntries | launchers/retroarch.py:152-167 | A playlist yields exactly its items' records, each with a path and a label. |
| RetroArch.PlaylistFile | launchers/retroarch.py:145-169 | A non-`.lpl` or undecodable file yields nothing. An unreadable `.lpl` file, or one of the wrong shape, raises. Otherwise its items' records. |
| RetroArch.FilesEntries | launchers/retroarch.py:145-169 | The listing succeeds iff every file does. It holds exactly the records of the files. |
| RetroArch.ScanPlaylists | launchers/retroarch.py:145-169 | Scanning a directory lists exactly the records of its `.lpl` files. |
| RetroArch.ListRetroArchGames | launchers/retroarch.py:137-171 | A missing playlists path yields no games; an existing one that is not a directory raises `NotADirectoryError`; otherwise the scan of that directory. |
| RetroArch.MalformedSkipped | launchers/retroarch.py:168-169 | A malformed playlist is skipped and the scan goes on. |
| Heroic.HeroicCommand | launchers/heroic.py:21-30 | Flatpak is preferred over native. With neither there is no command. |
| Heroic.RunnerFileBelowHome | launchers/heroic.py:6-19 | Each store file lies under the Flatpak or native Heroic config directory. |
| Heroic.Either | launchers/heroic.py:52 | `a or b` on strings: empty iff both are. Otherwise one of them. |
| Heroic.InstalledRecord | launchers/heroic.py:50-59 | A truthy `install_path` that is not a string raises (`AttributeError` from splitting it), and nothing else does. Otherwise the id is `appName`, else `app_name`; the title is the last `/` segment of a non-empty `install_path`, else the id; a record needs both non-empty. |
| Heroic.NumericPathRaises | launchers/heroic.py:50-59 | An `installed` entry whose `install_path` is a non-zero number makes the whole store file raise, although its `appName` is set. |
| Heroic.SideloadRecord | launchers/heroic.py:62-67 | A `games` entry needs `app_name` and `title`, and is always tagged sideload. |
| Heroic.KeyedRecord | launchers/heroic.py:70-74 | A keyed entry uses the key as id and `title`, else `app_name`, as title. Both must be non-empty. |
| Heroic.InstalledRecords | launchers/heroic.py:49-59 | An `installed` list fails iff some entry raises; otherwise its records are exactly those of its entries, at most one per entry. |
| Heroic.SideloadRecords | launchers/heroic.py:61-67 | The records of a `games` list are exactly those of its entries. |
| Heroic.KeyedRecords | launchers/heroic.py:69-74 | The records of a keyed object are exactly those of its members. |
| Heroic.FileRecords | launchers/heroic.py:47-86 | `installed` is read first (its entries' records, or an error when it cannot be iterated), then `games` (the sideload records, or the error), then the keyed shape. A top-level list is read like `installed`; any other top-level value yields nothing. Every record has an id and a title. |
| Heroic.TrailingSlashDropped | launchers/heroic.py:54-59 | An `install_path` ending in `/` drops the record, although its id is set. |
| Heroic.InstallPathTitle | launchers/heroic.py:52-59 | `appName` with install path `dir/name` gives the record (appName, name). |
| Heroic.AppNameFallback | launchers/heroic.py:52-59 | With only `app_name`, the id doubles as the title. |
| Heroic.Stores | launchers/heroic.py:42 | The store files are visited in the order legendary, gog, nile, sideload. |
| Heroic.StoreRecords | launchers/heroic.py:43-88 | A store file that does not decode yields nothing. Otherwise its records. |
| Heroic.StoresMembership | launchers/heroic.py:42-88 | The stores' listing fails iff some store does. It holds exactly the stores' records. |
| Heroic.StoresRecords | launchers/heroic.py:42-88 | No stores give no records, and the listing fails only when some store's file raises. |
| Heroic.StoresInOrder | launchers/heroic.py:42-88 | The records of a run of stores are those of its first part followed by those of the rest. |
| Heroic.MalformedStoreSkipped | launchers/heroic.py:87-88 | A malformed store file does not stop the remaining ones. |
| Heroic.ListHeroicGames | launchers/heroic.py:34-89 | No Heroic command yields no games. Otherwise exactly the records of the four store files of the detected install. |
| Utils.ParseJsonOutput | utils/utils.py:15-24 | There is a value iff the command succeeded and its output decodes. |
| Utils.ParseBottlesOutput | utils/utils.py:26-32 | A nonzero exit status gives no names. No name starts or ends with `-` or a blank. |
| Utils.BottlesRoundTrip | utils/utils.py:26-32 | Output printed as one "- name" line per bottle is read back as exactly those names, in order. |
| Utils.BottleNamesOfLines | utils/utils.py:32 | Reading "- name" lines gives the names, in order. |
| Utils.ParseBottlesPrograms | utils/utils.py:34-41 | A nonzero exit status gives no programs. No program name has surrounding whitespace. |
| Utils.ProgramNamesOfLines | utils/utils.py:41 | Reading "- name" lines gives the program names, in order. |
| Utils.HeaderSkipped | utils/utils.py:40-41 | A line starting with "Found" contributes no program. |
| Utils.ProgramsRoundTrip | utils/utils.py:34-41 | A "Found …" header followed by "- name" lines is read back as exactly the names, in order. |
| Utils.Sources | utils/utils.py:44-52 | One distinct source name per successful probe. |
| Utils.GamesFoundMessage | utils/utils.py:54-63 | No sources gives "No game sources detected.". Otherwise "Games found in " followed by the names joined with ", " and a final " and ", and a colon. |
| Utils.NoneDetected | utils/utils.py:44-55 | The message is "No game sources detected." iff no probe succeeded. |
| Utils.DetectedCount | utils/utils.py:44-57 | Whatever order the set is iterated in, each detected source is named exactly once. |
| Bottles.BottleGames | launchers/bottles.py:23-24 | Each program of a bottle becomes (program, program, Bottles(bottle)). |
| Bottles.BottlesGames | launchers/bottles.py:19-24 | No bottles give no records. Every record has its program name as id and title, and comes from a listed bottle. |
| Bottles.ListBottlesGames | launchers/bottles.py:9-26 | A missing bottles directory yields no games. Otherwise the programs of the listed bottles. Every record has id = title. |
| Bottles.BottlesCommands | launchers/bottles.py:13-21 | No command runs without the directory. Otherwise the listing runs first, then one programs command per listed bottle, in order. |
| Bottles.BottlesMembership | launchers/bottles.py:19-24 | A record is listed iff its bottle is listed and its name is one of that bottle's programs. |
| Bottles.BottlesAppend | launchers/bottles.py:19-24 | The records are bottle-major: those of the first bottles come before those of the later ones. |
| Bottles.BottlesCount | launchers/bottles.py:19-24 | The number of records is the sum of the bottles' program counts. |
| Bottles.FailingBottle | launchers/bottles.py:20-24 | A bottle whose programs command fails contributes nothing. |
| Lutris.LutrisCommand | launchers/lutris.py:5-16 | Flatpak is preferred over native. With neither there is no command. The command is `(base + " " + args).strip()`. |
| Lutris.NoArguments | launchers/lutris.py:16 | Empty arguments give exactly the base command. |
| Lutris.ListingCommand | launchers/lutris.py:27-28 | The listing command is `flatpak run net.lutris.Lutris -lo --json` when the Flatpak build is found, else `lutris -lo --json` when the native one is, else the f-string rendering of a missing command, `None -lo --json`. |
| Lutris.PlainArguments | launchers/lutris.py:16 | Arguments without surrounding whitespace are appended after one blank. |
| Lutris.IsLutrisRunning | launchers/lutris.py:22-23 | True iff the search succeeded and printed something besides whitespace. |
| Lutris.Pairs | launchers/lutris.py:31 | The games map, in order, to their (id, name) pairs. Any element without them raises. |
| Lutris.LutrisPairs | launchers/lutris.py:31 | No value, or a falsy one, gives no games. A list gives its pairs. Any other truthy value raises. |
| Lutris.LutrisEntries | launchers/lutris.py:31 | Each pair becomes one Lutris record, in order. |
| Lutris.ListLutrisGames | launchers/lutris.py:25-31 | A failed listing command or undecodable output gives no games. |
| Lutris.GameListRoundTrip | launchers/lutris.py:31 | A list printed as {id, name} objects is read back as exactly those pairs. |
| Sunshine.DetectSunshine | sunshine/sunshine.py:9-18 | Sunshine is found iff a probe succeeds. Flatpak is reported before native, and neither gives (False, ""). |
| Sunshine.Apps | sunshine/sunshine.py:56 | `data["apps"]` is available iff data is an object whose `apps` is a list. |
| Sunshine.LoadSunshineApps | sunshine/sunshine.py:20-30 | A decoded file is used as it stands. A missing or malformed one gives the default with an empty `apps` list and an `env`. |
| Sunshine.LaunchCommand | sunshine/sunshine.py:39-46 | "Lutris" gives `<lutris> lutris:rungameid/<id>`. A Heroic store tag gives `<heroic> heroic://launch/<tag>/<id> --no-gui --no-sandbox`. Anything else is a bottle name in the `bottles-cli run -b … -p …` template. |
| Sunshine.LaunchBySource | sunshine/sunshine.py:39-46 | Each kind of record gets the template of its own launcher. |
| Sunshine.BottleNamedLikeStore | sunshine/sunshine.py:42-46 | A bottle named like a Heroic store tag ("gog", say) gets the Heroic command, since the tag test comes first. |
| Sunshine.SetFieldLookup | sunshine/sunshine.py:56 | Replacing a member changes that member only. |
| Sunshine.SetApps | sunshine/sunshine.py:56 | After replacement the `apps` list is the new one, and every other member is unchanged. |
| Sunshine.AddGame | sunshine/sunshine.py:37-56 | Adding succeeds iff `apps` is a list. Exactly one app (name, cmd, image-path, "true", "true", "5") is appended, and nothing else changes. |
| Sunshine.AddKeepsApps | sunshine/sunshine.py:48-56 | The earlier apps keep their places, and the list grows by one. |
| Sunshine.NewApp | sunshine/sunshine.py:48-55 | The new app has the given name, command and image, and the constants "true", "true" and "5" for `auto-detach`, `wait-all` and `exit-timeout`. |
| Covers.CacheName | utils/steamgriddb.py:43 | The cover file name is the title lower-cased with blanks turned into dashes, plus ".png". |
| Covers.CaseShared | utils/steamgriddb.py:43 | Titles differing only in letter case share one cover file. |
| Covers.SharedCacheName | utils/steamgriddb.py:43 | Titles share a cover file only if they differ at most in case and in blanks versus dashes. |
| Covers.DownloadCover | utils/steamgriddb.py:41-82 | A cached file is returned with no request. The result is always the cache path or "default.png". A failed search or an empty result list gives "default.png". |
| Covers.CoverFetched | utils/steamgriddb.py:51-78 | When search, grid and image all succeed, the cover is the cache path. |
| Covers.FromGrid | utils/steamgriddb.py:60-82 | The grid stage ends in the cache path or "default.png"; a failed grid request gives "default.png". |
| Covers.SearchFound | utils/steamgriddb.py:59-61 | Once the search finds an id, the grid request for that id alone decides the cover. |
| Covers.GridFallback | utils/steamgriddb.py:65-82 | A grid reply with no images, or an image that does not download, gives "default.png". |
| Covers.NoGrid | utils/steamgriddb.py:60-82 | A failed or empty grid reply, or a failed image download, gives "default.png". |
| Covers.FirstValid | utils/steamgriddb.py:30-37 | The key prompt ends with the first entered key that validates. There is none iff no entered key does. |
| Covers.FirstValidAt | utils/steamgriddb.py:30-37 | Keys entered before the first valid one are discarded. |
| Covers.ManageApiKey | utils/steamgriddb.py:18-39 | Only a validated key (status 200) is returned. A valid stored key is returned and nothing is written. Otherwise the new key is written to disk only after it validates. |
| Covers.ValidateApiKey | utils/steamgriddb.py:9-16 | A key is valid exactly when the test request answers with status 200. A request that raises makes it invalid. |
| Legacy.PartNumbersMembers | lutristosunshine.py:153 | Exactly the parts that are digits once stripped contribute their number minus one. |
| Legacy.PartNumbers | lutristosunshine.py:153 | No more numbers are read than there are parts. |
| Legacy.BoundedMembers | lutristosunshine.py:155 | Exactly the in-range indices are kept. |
| Legacy.Bounded | lutristosunshine.py:155 | Only indices that were asked for and are below the number of games are kept. |
| Legacy.LegacySelection | lutristosunshine.py:150-155 | `str(n+1)` selects every game in order. Any selection holds only indices of listed games. |
| Legacy.NumbersRead | lutristosunshine.py:153-155 | Typed numbers are read back as their indices, in order. |
| Legacy.SelectionRoundTrip | lutristosunshine.py:149-155 | Comma-separated in-range numbers select exactly those games, in order and with repetitions. |
| Legacy.NotAll | lutristosunshine.py:150-151 | A list of in-range numbers is never taken for "add all". |
| Legacy.RepeatsKept | lutristosunshine.py:153-155 | "1,1" selects the first game twice. |
| Legacy.LegacyPairs | lutristosunshine.py:52-53 | A list maps to its (id, name) pairs. Only an empty object or string gives no pairs. Anything else raises. |
| Legacy.LegacyListLutris | lutristosunshine.py:36-54 | With Lutris not installed, or when the listing command exits non-zero, there are no games. Otherwise the call raises exactly when the output does not decode or its games are not (id, name) objects, and it returns their pairs when it does not raise. |
| Legacy.ListingsAgree | lutristosunshine.py:36-54 | When Lutris prints a list, the legacy and the current listings agree. |
| Legacy.LegacyCover | lutristosunshine.py:56-97 | The result is the cover file or "default.png". A search answered with any status but 200 gives "default.png". A request that raises is an error. |
| Legacy.LegacyGridCover | lutristosunshine.py:72-97 | Once the search gave an id, the result is the cover file or "default.png". A grid request answered with any status but 200 gives "default.png". A grid request that raises is an error. |
| Legacy.LegacyCoverFetched | lutristosunshine.py:72-97 | When every request answers 200 with results, the cover is the file named after the title. |
| Legacy.LegacyCoverRefused | lutristosunshine.py:72-90 | A grid request or an image download answered with any status but 200 gives "default.png". |
| Legacy.LegacyCoverEmpty | lutristosunshine.py:67-83 | An empty search or grid result gives "default.png". |
| Legacy.LegacyLoadApps | lutristosunshine.py:99-105 | A missing file gives the default configuration. A malformed one raises. A decoded one is used as it stands. |
| Legacy.LoadersAgree | lutristosunshine.py:99-105 | Except on a malformed file, the legacy loader agrees with the current one. |
| Legacy.LegacyCommand | lutristosunshine.py:167-170 | Every legacy command starts with `env LUTRIS_SKIP_INIT=1 `. |
| Legacy.CommandsAgree | lutristosunshine.py:167-170 | The legacy command is the Lutris command for `lutris:rungameid/<id>`, run with the start-up checks skipped. |
| Legacy.KeptMembers | lutristosunshine.py:157-160 | A selected game is kept iff its name is not in the snapshot of existing names. |
| Legacy.Kept | lutristosunshine.py:157-160 | Only selected games whose name is not in the snapshot of existing names are kept. |
| Legacy.AppFor | lutristosunshine.py:162-180 | A game's app has its name, its command and its image. It fails only when the cover download raises. |
| Legacy.NewApps | lutristosunshine.py:157-180 | One app per kept game, in order. The first failing download aborts. |
| Legacy.AppendSelected | lutristosunshine.py:155-180 | The earlier apps stay in place. Exactly one app per kept selection is appended, in selection order. |
| Legacy.SelectedGames | lutristosunshine.py:150-155 | The games are taken in the order of the selection's indices; the "all" choice takes every listed game in order. |
| Legacy.AppNames | lutristosunshine.py:140 | The existing-name snapshot is the `name` of every app, in order. |
| Legacy.ImageFor | lutristosunshine.py:162-165 | The image is "default.png" unless the answer was "y" and a key was had. |
| Legacy.LegacyMain | lutristosunshine.py:121-186 | A running Lutris stops everything. The key file is written exactly after a "y" with no stored key, and it stays written when a later step raises. A listing that raises ends the run with that exception. Nothing is saved without listed games. Otherwise the configuration is saved exactly when building it does not raise. |
| Legacy.Saved | lutristosunshine.py:139-183 | The saved apps are exactly the loaded apps followed by one app per selected game whose name was not configured, in selection order; every other member stays unchanged. It raises exactly when the file is malformed, its `apps` is not a list, an app has no readable `name`, or a cover download raises. |

## Left out

- I/O is not modelled: subprocesses, files, HTTP, `input()`, `print` and `sys.exit`. Their results are parameters. The `detect_*` probes, `run_command` and `handle_interrupt` are not modelled beyond their boolean results.
- Image decoding, palette quantisation and saving (PIL) are left out. A successful image download counts as a saved cover. PIL errors, which the code does not catch, are not modelled.
- `save_sunshine_apps`, `save_api_key` and `load_api_key` of the legacy script are left out, as plain file I/O. The key written and the configuration saved appear in `Legacy.Outcome`.
- `get_steam_command` and `get_retroarch_command` are left out: each is a probe choice with a constant per case. config/constants.py holds only constants, used where needed.
- launchers/heroic.py:32 is unreachable and is not modelled.
- Text is ASCII: case mapping, `isdigit` and whitespace cover ASCII only, plus the separators `\x1c`-`\x1f` that `str.strip` removes. Python's `int()` leniencies ("+3", "1_0") are not modelled. A part with a sign or an underscore is read as malformed.
- The iteration order of a Python `set` is not fixed. `Utils.GamesFoundMessage` takes the order as a parameter, constrained by `Utils.Enumerates`. `Selection.SelectionValidator` returns a set.
- The `~user` form of `expanduser` is not modelled. Only `~` and `~/…` expand, to the given home directory.
- Heroic.InstalledRecord: an `appName` or `app_name` that is truthy but not a string (a number, say) is read as absent, where Python would take it as the id. A truthy non-string `install_path` is modelled: it raises.
- Heroic.SideloadRecord: an `app_name` or `title` that is truthy but not a string is read as absent, where Python would keep it in the record.
- Heroic.KeyedRecord: a `title` or `app_name` that is truthy but not a string is read as absent, where Python would keep it as the title.
- RetroArch.ItemEntry: a non-string truthy `path`, `label`, `core_path` or `core_name` is read as absent, where Python would keep the value.
- Ryubing.GameDirs: a truthy `game_dirs` that is not a list of strings is an error here. Python would return it and iterate it.
- Json.JValue: a JSON number is an integer. A fraction or exponent (an id of `1.5`, say) cannot be represented, so decoding such a file is outside the model.
- Json.FileState: a file that exists but cannot be opened or is not valid text has no state of its own. The readers at launchers/heroic.py:44-46, sunshine/sunshine.py:25-27 and launchers/ryubing.py:20-21 let the `OSError` or `UnicodeDecodeError` through, and the model does not describe that exception.
- Steam.SteamFiles: `readText` and `readLines` give a file's text or nothing. A `libraryfolders.vdf` or `appmanifest_*.acf` that exists but is not valid text in the default encoding raises `UnicodeDecodeError` when read at launchers/steam.py:37-38 and launchers/steam.py:54-55; the model does not describe that exception, so the Steam.LibraryGames, Steam.LibrariesGames and Steam.ListSteamGames rows hold only for readable files.
- Json.PyStr renders a list or object as "", where Python prints its repr. Only ids of those shapes are affected.
- Legacy.LegacyMain: the cover download is a parameter, and the Flatpak probe is assumed to give the same answer in every loop iteration.
- Legacy.Saved: an `apps` member that is not a list is an error up front. Python fails on it only when it reads names or appends, so an empty object or string as `apps` with nothing to append would be saved unchanged there.
- Covers.DownloadCover: a reply body that does not decode as JSON is folded into `RequestFailed`, which it is in `requests`, where `JSONDecodeError` is a `RequestException`.
- Selection.SelectionValidator: the re-prompt loop of `get_user_input` is left out. A `ValueError` result is where the program asks again.
- Steam.ListSteamGames models the code as written, including the doubled `steamapps` of the fallback (see Findings). The corrected list is `Steam.IntendedLibraries`.

## Findings

| source | as written | input that shows it | evidently intended | confidence | as-written member | corrected member |
|---|---|---|---|---|---|---|
| launchers/steam.py:77-85 | With no libraries in `libraryfolders.vdf`, the fallback library is `<root>/steamapps`, and the scan then appends `steamapps` once more, so it looks in `<root>/steamapps/steamapps` | root `~/.steam/steam` with no `libraryfolders.vdf` and manifests in `~/.steam/steam/steamapps`: nothing is listed | the fallback library is the root itself, so that `<root>/steamapps` is scanned | high; not executed | Steam.FallbackMissesRoot | Steam.IntendedFallback |
