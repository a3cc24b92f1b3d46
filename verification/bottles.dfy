/** Games installed in Bottles (Flatpak): one record per program of every
    gaming bottle, scraped from the text that `bottles-cli` prints. */
module Bottles {
  import opened Text
  import opened Json
  import opened Games
  import opened Utils

  /** The command that lists the bottles set up for gaming. */
  const ListCommand: string := "flatpak run --command=bottles-cli com.usebottles.bottles list bottles -f environment:gaming"

  /** The command that lists the programs of one bottle. */
  function ProgramsCommand(bottle: string): string {
    "flatpak run --command=bottles-cli com.usebottles.bottles programs -b \"" + bottle + [Quote]
  }

  /** The records for one bottle's programs: the program name is both the
      id and the title. */
  function BottleGames(bottle: string, programs: seq<string>): (r: seq<GameEntry>)
    ensures |r| == |programs|
    ensures forall k :: 0 <= k < |r| ==> r[k] == GameEntry(programs[k], programs[k], Bottles(bottle))
  {
    if programs == [] then []
    else [GameEntry(programs[0], programs[0], Bottles(bottle))] + BottleGames(bottle, programs[1..])
  }

  /** The programs `run` reports for a bottle. */
  function Programs(bottle: string, run: string -> CommandResult): seq<string> {
    ParseBottlesPrograms(run(ProgramsCommand(bottle)))
  }

  /** The records of the given bottles, bottle after bottle. */
  function BottlesGames(bottles: seq<string>, run: string -> CommandResult): (r: seq<GameEntry>)
    ensures bottles == [] ==> r == []
    ensures forall g :: g in r ==> g.id == g.title && g.source.Bottles? && g.source.bottle in bottles
  {
    if bottles == [] then []
    else BottleGames(bottles[0], Programs(bottles[0], run)) + BottlesGames(bottles[1..], run)
  }

  /** `list_bottles_games`: nothing when the bottles directory is missing;
      otherwise the records of every bottle `bottles-cli` lists. `run`
      stands for running a shell command. */
  function ListBottlesGames(dirExists: bool, run: string -> CommandResult): (r: seq<GameEntry>)
    ensures !dirExists ==> r == []
    ensures dirExists ==> r == BottlesGames(ParseBottlesOutput(run(ListCommand)), run)
    ensures forall g :: g in r ==> g.id == g.title && g.source.Bottles?
  {
    if !dirExists then []
    else
      var bottles := ParseBottlesOutput(run(ListCommand));
      BottlesMembership(bottles, run);
      BottlesGames(bottles, run)
  }

  /** The commands `list_bottles_games` runs, in order: none when the
      directory is missing, else the listing and one per listed bottle. */
  function BottlesCommands(dirExists: bool, run: string -> CommandResult): (r: seq<string>)
    ensures !dirExists ==> r == []
    ensures dirExists ==> (r != [] && r[0] == ListCommand &&
      |r| == 1 + |ParseBottlesOutput(run(ListCommand))|)
    ensures dirExists ==> forall k :: 1 <= k < |r| ==>
      r[k] == ProgramsCommand(ParseBottlesOutput(run(ListCommand))[k - 1])
  {
    if !dirExists then []
    else
      var bottles := ParseBottlesOutput(run(ListCommand));
      [ListCommand] + seq(|bottles|, k requires 0 <= k < |bottles| => ProgramsCommand(bottles[k]))
  }

  /** A record comes from the bottles list exactly when its bottle is
      listed and its name is one of that bottle's programs. */
  lemma {:induction false} BottlesMembership(bottles: seq<string>, run: string -> CommandResult)
    ensures forall g :: g in BottlesGames(bottles, run) <==>
      (exists b :: b in bottles && g.source == Bottles(b) && g.id == g.title && g.id in Programs(b, run))
    decreases |bottles|
  {
    if bottles != [] {
      BottlesMembership(bottles[1..], run);
      var head := BottleGames(bottles[0], Programs(bottles[0], run));
      assert forall g :: g in head <==>
        (g.source == Bottles(bottles[0]) && g.id == g.title && g.id in Programs(bottles[0], run)) by {
        forall g | g in head
          ensures g.source == Bottles(bottles[0]) && g.id == g.title && g.id in Programs(bottles[0], run)
        {
          var k :| 0 <= k < |head| && head[k] == g;
        }
        forall g: GameEntry | g.source == Bottles(bottles[0]) && g.id == g.title && g.id in Programs(bottles[0], run)
          ensures g in head
        {
          var ps := Programs(bottles[0], run);
          var k :| 0 <= k < |ps| && ps[k] == g.id;
          assert head[k] == g;
        }
      }
      assert forall b :: b in bottles <==> b == bottles[0] || b in bottles[1..];
    }
  }

  /** The listing is bottle-major: listing two runs of bottles gives the
      records of the first run followed by those of the second. */
  lemma {:induction false} BottlesAppend(a: seq<string>, b: seq<string>, run: string -> CommandResult)
    ensures BottlesGames(a + b, run) == BottlesGames(a, run) + BottlesGames(b, run)
    decreases |a|
  {
    if a == [] {
      assert a + b == b;
    } else {
      assert (a + b)[0] == a[0];
      assert (a + b)[1..] == a[1..] + b;
      BottlesAppend(a[1..], b, run);
      var head := BottleGames(a[0], Programs(a[0], run));
      assert BottlesGames(a + b, run) == head + BottlesGames(a[1..] + b, run);
    }
  }

  /** The number of programs over a run of bottles. */
  function ProgramCount(bottles: seq<string>, run: string -> CommandResult): nat {
    if bottles == [] then 0 else |Programs(bottles[0], run)| + ProgramCount(bottles[1..], run)
  }

  /** There is one record per program of each listed bottle. */
  lemma {:induction false} BottlesCount(bottles: seq<string>, run: string -> CommandResult)
    ensures |BottlesGames(bottles, run)| == ProgramCount(bottles, run)
    decreases |bottles|
  {
    if bottles != [] {
      BottlesCount(bottles[1..], run);
    }
  }

  /** A bottle whose programs command fails contributes no record. */
  lemma FailingBottle(bottle: string, rest: seq<string>, run: string -> CommandResult)
    requires run(ProgramsCommand(bottle)).returncode != 0
    ensures BottlesGames([bottle] + rest, run) == BottlesGames(rest, run)
  {
    assert ([bottle] + rest)[1..] == rest;
  }
}
