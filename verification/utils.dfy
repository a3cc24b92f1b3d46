/** Shared helpers: reading a command's JSON output, scraping the text that
    `bottles-cli` prints, and the summary line naming the detected sources. */
module Utils {
  import opened Wrappers
  import opened Text
  import opened Json

  /** `parse_json_output`: nothing on a nonzero exit status or when the
      output does not decode; `decode` stands for `json.loads`. */
  function ParseJsonOutput(result: CommandResult, decode: string -> Option<JValue>): (r: Option<JValue>)
    ensures r.Some? <==> result.returncode == 0 && decode(result.stdout).Some?
    ensures r.Some? ==> r == decode(result.stdout)
  {
    if result.returncode != 0 then None else decode(result.stdout)
  }

  /** An optional command as an f-string shows it: the text, or "None". */
  function Shown(cmd: Option<string>): string {
    match cmd
    case Some(c) => c
    case None => "None"
  }

  // ---------------------------------------------------------------- bottles

  /** The characters `strip('- ')` removes. */
  const DashSpace: set<char> := {'-', ' '}

  /** The bottle names among output lines: each line starting with '-',
      with leading and trailing dashes and spaces removed. */
  function BottleNames(lines: seq<string>): (r: seq<string>)
    ensures |r| <= |lines|
    ensures forall k :: 0 <= k < |r| ==> r[k] == [] || (r[k][0] !in DashSpace && r[k][|r[k]| - 1] !in DashSpace)
  {
    if lines == [] then []
    else (if StartsWith(lines[0], "-") then [StripChars(lines[0], DashSpace)] else []) + BottleNames(lines[1..])
  }

  /** `parse_bottles_output`: no names after a nonzero exit status;
      otherwise one name per output line that starts with '-', in order. */
  function ParseBottlesOutput(result: CommandResult): (r: seq<string>)
    ensures result.returncode != 0 ==> r == []
    ensures forall k :: 0 <= k < |r| ==> r[k] == [] || (r[k][0] !in DashSpace && r[k][|r[k]| - 1] !in DashSpace)
  {
    if result.returncode != 0 then [] else BottleNames(Split(result.stdout, '\n'))
  }

  /** How `bottles-cli list` prints one bottle. */
  function BottleLine(name: string): string {
    "- " + name
  }

  /** A name that survives `strip('- ')` and fits on one line. */
  predicate PlainName(name: string) {
    name != [] && name[0] !in DashSpace && name[|name| - 1] !in DashSpace && '\n' !in name
  }

  lemma BottleLineName(name: string)
    requires PlainName(name)
    ensures StartsWith(BottleLine(name), "-") && StripChars(BottleLine(name), DashSpace) == name
  {
    assert BottleLine(name)[0] == '-';
    assert BottleLine(name) == "- " + name + "";
    StripCharsPadded("- ", name, "", DashSpace);
    StripCharsKeeps(name, DashSpace);
  }

  /** The lines of a bottle list printed one per line. */
  function BottleLines(names: seq<string>): (r: seq<string>)
    ensures |r| == |names|
    ensures forall k :: 0 <= k < |r| ==> r[k] == BottleLine(names[k])
  {
    if names == [] then [] else [BottleLine(names[0])] + BottleLines(names[1..])
  }

  lemma {:induction false} BottleNamesOfLines(names: seq<string>)
    requires forall k :: 0 <= k < |names| ==> PlainName(names[k])
    ensures BottleNames(BottleLines(names)) == names
    decreases |names|
  {
    if names != [] {
      BottleLineName(names[0]);
      assert BottleLines(names)[1..] == BottleLines(names[1..]);
      BottleNamesOfLines(names[1..]);
    }
  }

  /** Printing plain names one per line and parsing the output gives them back. */
  lemma BottlesRoundTrip(names: seq<string>)
    requires names != []
    requires forall k :: 0 <= k < |names| ==> PlainName(names[k])
    ensures ParseBottlesOutput(CommandResult(0, JoinWith(BottleLines(names), '\n'))) == names
  {
    var lines := BottleLines(names);
    assert Split(JoinWith(lines, '\n'), '\n') == lines by {
      BottleLinesSingle(names);
      assert forall k :: 0 <= k < |lines| ==> lines[k] in lines;
      SplitJoin(lines, '\n');
    }
    assert BottleNames(lines) == names by {
      BottleNamesOfLines(names);
    }
  }

  // ---------------------------------------------------------------- programs

  /** The program names among output lines: every line that is not blank
      and does not start with "Found", with dashes and spaces and then
      whitespace stripped from both ends. */
  function ProgramNames(lines: seq<string>): (r: seq<string>)
    ensures |r| <= |lines|
    ensures forall k :: 0 <= k < |r| ==> r[k] == [] || (r[k][0] !in Whitespace && r[k][|r[k]| - 1] !in Whitespace)
  {
    if lines == [] then []
    else
      var line := lines[0];
      (if Strip(line) != [] && !StartsWith(line, "Found") then [Strip(StripChars(line, DashSpace))] else []) +
      ProgramNames(lines[1..])
  }

  /** `parse_bottles_programs`: no names after a nonzero exit status;
      otherwise one per remaining output line, in order. */
  function ParseBottlesPrograms(result: CommandResult): (r: seq<string>)
    ensures result.returncode != 0 ==> r == []
    ensures forall k :: 0 <= k < |r| ==> r[k] == [] || (r[k][0] !in Whitespace && r[k][|r[k]| - 1] !in Whitespace)
  {
    if result.returncode != 0 then [] else ProgramNames(Split(result.stdout, '\n'))
  }

  /** A program name that survives both strips and fits on one line. */
  predicate PlainProgram(name: string) {
    PlainName(name) && name[0] !in Whitespace && name[|name| - 1] !in Whitespace
  }

  lemma ProgramLineName(name: string)
    requires PlainProgram(name)
    ensures var line := BottleLine(name);
      Strip(line) != [] && !StartsWith(line, "Found") && Strip(StripChars(line, DashSpace)) == name
  {
    BottleLineName(name);
    StripCharsKeeps(name, Whitespace);
    var line := BottleLine(name);
    assert line[0] == '-';
    StripCharsEmpty(line, Whitespace);
    assert line[0] !in Whitespace;
  }

  lemma {:induction false} ProgramNamesOfLines(names: seq<string>)
    requires forall k :: 0 <= k < |names| ==> PlainProgram(names[k])
    ensures ProgramNames(BottleLines(names)) == names
    decreases |names|
  {
    if names != [] {
      ProgramLineFirst(names);
      ProgramNamesOfLines(names[1..]);
    }
  }

  lemma ProgramLineFirst(names: seq<string>)
    requires names != [] && PlainProgram(names[0])
    ensures ProgramNames(BottleLines(names)) == [names[0]] + ProgramNames(BottleLines(names[1..]))
  {
    ProgramLineName(names[0]);
    assert BottleLines(names)[1..] == BottleLines(names[1..]);
  }

  /** Lines printed from plain names hold no line break. */
  lemma {:induction false} BottleLinesSingle(names: seq<string>)
    requires forall k :: 0 <= k < |names| ==> PlainName(names[k])
    ensures forall line :: line in BottleLines(names) ==> '\n' !in line
    decreases |names|
  {
    if names != [] {
      BottleLinesSingle(names[1..]);
      assert BottleLines(names) == [BottleLine(names[0])] + BottleLines(names[1..]);
      assert BottleLine(names[0]) == "- " + names[0];
      assert PlainName(names[0]);
    }
  }

  /** The "Found ..." header line contributes no program. */
  lemma HeaderSkipped(header: string, rest: seq<string>)
    requires StartsWith(header, "Found")
    ensures ProgramNames([header] + rest) == ProgramNames(rest)
  {
    assert ([header] + rest)[1..] == rest;
  }

  /** A "Found ..." header followed by the programs one per line parses to
      exactly those programs. */
  lemma ProgramsRoundTrip(header: string, names: seq<string>)
    requires StartsWith(header, "Found") && '\n' !in header
    requires forall k :: 0 <= k < |names| ==> PlainProgram(names[k])
    ensures ParseBottlesPrograms(CommandResult(0, JoinWith([header] + BottleLines(names), '\n'))) == names
  {
    var body := BottleLines(names);
    var lines := [header] + body;
    assert Split(JoinWith(lines, '\n'), '\n') == lines by {
      BottleLinesSingle(names);
      forall k | 0 <= k < |lines|
        ensures '\n' !in lines[k]
      {
        if k > 0 {
          assert lines[k] == body[k - 1];
          assert lines[k] in body;
        }
      }
      SplitJoin(lines, '\n');
    }
    assert ProgramNames(lines) == names by {
      HeaderSkipped(header, body);
      ProgramNamesOfLines(names);
    }
  }

  // ---------------------------------------------------------------- summary

  /** The launchers whose probes succeeded, in probing order. */
  function Sources(lutris: bool, heroic: bool, bottles: bool, steam: bool): (r: seq<string>)
    ensures |r| == (if lutris then 1 else 0) + (if heroic then 1 else 0) + (if bottles then 1 else 0) + (if steam then 1 else 0)
    ensures forall i, j :: 0 <= i < j < |r| ==> r[i] != r[j]
  {
    (if lutris then ["Lutris"] else []) + (if heroic then ["Heroic"] else []) +
    (if bottles then ["Bottles"] else []) + (if steam then ["Steam"] else [])
  }

  /** The source names of the launchers whose probes succeeded. */
  function Detected(lutris: bool, heroic: bool, bottles: bool, steam: bool): set<string> {
    set x | x in Sources(lutris, heroic, bottles, steam)
  }

  /** `names` lists the set `s` once each, in some order (the order in which
      Python iterates a set is not fixed). */
  predicate Enumerates(names: seq<string>, s: set<string>) {
    (forall k :: 0 <= k < |names| ==> names[k] in s) &&
    (forall x :: x in s ==> x in names) &&
    (forall i, j :: 0 <= i < j < |names| ==> names[i] != names[j])
  }

  /** `", ".join(names)`. */
  function CommaJoin(names: seq<string>): string {
    if |names| == 0 then []
    else if |names| == 1 then names[0]
    else names[0] + ", " + CommaJoin(names[1..])
  }

  /** A list as English prose: "a", "a and b", "a, b and c", ... */
  function Prose(names: seq<string>): string
    requires names != []
  {
    if |names| == 1 then names[0]
    else CommaJoin(names[..|names| - 1]) + " and " + names[|names| - 1]
  }

  /** `get_games_found_message`, given the detected sources in the order
      in which the set of them is iterated. */
  function GamesFoundMessage(order: seq<string>): (r: string)
    ensures order == [] ==> r == "No game sources detected."
    ensures order != [] ==> r == "Games found in " + Prose(order) + ":"
  {
    if |order| == 0 then "No game sources detected."
    else if |order| == 1 then "Games found in " + order[0] + ":"
    else if |order| == 2 then
      assert CommaJoin(order[..1]) == order[0];
      "Games found in " + order[0] + " and " + order[1] + ":"
    else "Games found in " + CommaJoin(order[..|order| - 1]) + " and " + order[|order| - 1] + ":"
  }

  /** The "no sources" message appears exactly when every probe failed. */
  lemma NoneDetected(lutris: bool, heroic: bool, bottles: bool, steam: bool, order: seq<string>)
    requires Enumerates(order, Detected(lutris, heroic, bottles, steam))
    ensures GamesFoundMessage(order) == "No game sources detected." <==> !(lutris || heroic || bottles || steam)
  {
    var src := Sources(lutris, heroic, bottles, steam);
    if src != [] {
      assert src[0] in Detected(lutris, heroic, bottles, steam);
      assert order != [];
      var m := GamesFoundMessage(order);
      assert m[0] == 'G';
      assert "No game sources detected."[0] == 'N';
    }
  }

  /** Each detected source is named once: the list holds as many names as
      probes succeeded. */
  lemma DetectedCount(lutris: bool, heroic: bool, bottles: bool, steam: bool, order: seq<string>)
    requires Enumerates(order, Detected(lutris, heroic, bottles, steam))
    ensures |order| == (if lutris then 1 else 0) + (if heroic then 1 else 0) + (if bottles then 1 else 0) + (if steam then 1 else 0)
  {
    var src := Sources(lutris, heroic, bottles, steam);
    DistinctCard(order);
    DistinctCard(src);
    assert (set x | x in order) == (set x | x in src);
  }

  lemma {:induction false} DistinctCard(names: seq<string>)
    requires forall i, j :: 0 <= i < j < |names| ==> names[i] != names[j]
    ensures |set x | x in names| == |names|
    decreases |names|
  {
    if names != [] {
      var rest := names[1..];
      DistinctCard(rest);
      assert (set x | x in names) == {names[0]} + (set x | x in rest);
      assert names[0] !in rest;
    }
  }
}
