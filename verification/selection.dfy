/** The answers the interactive prompts accept (utils/input.py): a yes/no
    answer, and a list of 1-based game numbers and ranges. */
module Selection {
  import opened Wrappers
  import opened Text

  /** `yes_no_validator`: "y"/"yes" mean yes and "n"/"no" mean no, whatever the
      case and surrounding whitespace; anything else is rejected. */
  function YesNo(value: string): (r: Result<bool>)
    ensures r == Ok(true) <==> Lower(Strip(value)) in ["y", "yes"]
    ensures r == Ok(false) <==> Lower(Strip(value)) in ["n", "no"]
    ensures r.Err? <==> Lower(Strip(value)) !in ["y", "yes", "n", "no"]
  {
    var v := Lower(Strip(value));
    if v == "y" || v == "yes" then Ok(true)
    else if v == "n" || v == "no" then Ok(false)
    else Err("ValueError")
  }

  /** Whitespace around the answer never changes it. */
  lemma YesNoPadded(a: string, value: string, b: string)
    requires AllIn(a, Whitespace) && AllIn(b, Whitespace)
    ensures YesNo(a + value + b) == YesNo(value)
  {
    StripCharsPadded(a, value, b, Whitespace);
  }

  /** Two answers that differ only in letter case get the same verdict. */
  lemma YesNoIgnoresCase(s: string, t: string)
    requires Lower(s) == Lower(t)
    ensures YesNo(s) == YesNo(t)
  {
    LowerStrip(s);
    LowerStrip(t);
  }

  /** `list(range(lo, hi))`. */
  function Range(lo: int, hi: int): (r: seq<int>)
    ensures |r| == if lo < hi then hi - lo else 0
    ensures forall k :: 0 <= k < |r| ==> r[k] == lo + k
    decreases hi - lo
  {
    if lo >= hi then [] else [lo] + Range(lo + 1, hi)
  }

  /** `range(lo, hi)` holds exactly the integers from `lo` up to, not including, `hi`. */
  lemma RangeMembers(lo: int, hi: int)
    ensures forall i :: i in Range(lo, hi) <==> lo <= i < hi
  {
    var r := Range(lo, hi);
    forall i | lo <= i < hi
      ensures i in r
    {
      assert r[i - lo] == i;
    }
  }

  /** The 0-based indices one comma-separated part asks for: "a-b" gives
      a-1 .. b-1, "n" gives n-1; anything `int()` rejects is a ValueError. */
  function PartIndices(part: string): (r: Result<seq<int>>)
    ensures Strip(part) == [] ==> r.Err?
    ensures '-' in Strip(part) ==> (r.Ok? <==> (|Split(Strip(part), '-')| == 2 &&
      ParseInt(Split(Strip(part), '-')[0]).Some? && ParseInt(Split(Strip(part), '-')[1]).Some?))
    ensures '-' !in Strip(part) ==> (r.Ok? <==> ParseInt(Strip(part)).Some?)
    ensures '-' !in Strip(part) && r.Ok? ==> r.value == [ParseInt(Strip(part)).value - 1]
  {
    var p := Strip(part);
    if '-' in p then RangeIndices(Split(p, '-')) else NumberIndices(p)
  }

  /** A range part: exactly two pieces, both integers, selecting the
      indices from the first minus one up to, but not including, the second. */
  function RangeIndices(pieces: seq<string>): (r: Result<seq<int>>)
    ensures r.Ok? <==> |pieces| == 2 && ParseInt(pieces[0]).Some? && ParseInt(pieces[1]).Some?
    ensures r.Ok? ==> forall i :: i in r.value <==> ParseInt(pieces[0]).value - 1 <= i < ParseInt(pieces[1]).value
  {
    if |pieces| != 2 then Err("ValueError")
    else
      var start := ParseInt(pieces[0]);
      var end := ParseInt(pieces[1]);
      if start.Some? && end.Some? then
        RangeMembers(start.value - 1, end.value);
        Ok(Range(start.value - 1, end.value))
      else Err("ValueError")
  }

  /** A single number part: the index one below the number, as a one-element list. */
  function NumberIndices(p: string): (r: Result<seq<int>>)
    ensures r.Ok? <==> ParseInt(p).Some?
    ensures r.Ok? ==> |r.value| == 1 && r.value[0] + 1 == ParseInt(p).value
  {
    match ParseInt(p)
    case Some(n) => Ok([n - 1])
    case None => Err("ValueError")
  }

  /** Part `part` is well formed under `f` and asks for index `i`. */
  predicate Picks(f: string -> Result<seq<int>>, part: string, i: int) {
    f(part).Ok? && i in f(part).value
  }

  /** Every part of `parts` is well formed under `f`. */
  predicate PartsOk(f: string -> Result<seq<int>>, parts: seq<string>) {
    forall k :: 0 <= k < |parts| ==> f(parts[k]).Ok?
  }

  /** Some part of `parts` is well formed under `f` and asks for index `i`. */
  ghost predicate PickedBy(f: string -> Result<seq<int>>, parts: seq<string>, i: int) {
    exists k :: 0 <= k < |parts| && Picks(f, parts[k], i)
  }

  lemma PickedByCons(f: string -> Result<seq<int>>, parts: seq<string>, i: int)
    requires |parts| > 0
    ensures PickedBy(f, parts, i) <==> Picks(f, parts[0], i) || PickedBy(f, parts[1..], i)
  {
    if PickedBy(f, parts, i) && !Picks(f, parts[0], i) {
      var k :| 0 <= k < |parts| && Picks(f, parts[k], i);
      assert parts[1..][k - 1] == parts[k];
    }
    if PickedBy(f, parts[1..], i) {
      var k :| 0 <= k < |parts| - 1 && Picks(f, parts[1..][k], i);
      assert parts[k + 1] == parts[1..][k];
    }
  }

  /** The indices `f` gives for all parts, in order, or the first part's error. */
  function Collect(f: string -> Result<seq<int>>, parts: seq<string>): (r: Result<seq<int>>)
    ensures r.Ok? <==> PartsOk(f, parts)
    ensures r.Ok? ==> forall i :: i in r.value <==> PickedBy(f, parts, i)
  {
    if |parts| == 0 then Ok([])
    else
      var first := f(parts[0]);
      var rest := Collect(f, parts[1..]);
      assert forall k :: 1 <= k < |parts| ==> parts[k] == parts[1..][k - 1];
      if first.Err? then first
      else if rest.Err? then rest
      else
        assert forall i :: i in first.value + rest.value <==> PickedBy(f, parts, i) by {
          forall i {
            PickedByCons(f, parts, i);
          }
        }
        Ok(first.value + rest.value)
  }

  /** Every index of a list of `n` games. */
  function AllIndices(n: nat): (r: set<int>)
    ensures forall i :: i in r <==> 0 <= i < n
  {
    if n == 0 then {} else AllIndices(n - 1) + {n - 1}
  }

  /** `selection_validator` (nested in `get_user_selection`) for a list of `n`
      games: the number n+1 selects every game; otherwise every part must be
      well formed and every index it asks for must name a game, and the
      result holds each index once. */
  function SelectionValidator(value: string, n: nat): (r: Result<set<int>>)
    ensures Strip(value) == NatToString(n + 1) ==> r == Ok(AllIndices(n))
    ensures r.Ok? ==> forall i :: i in r.value ==> 0 <= i < n
  {
    if Strip(value) == NatToString(n + 1) then Ok(AllIndices(n))
    else
      match Collect(PartIndices, Split(value, ','))
      case Err(e) => Err(e)
      case Ok(ix) => InRange(ix, n)
  }

  /** The distinct indices asked for, when every one names one of `n` games; else a ValueError. */
  function InRange(ix: seq<int>, n: nat): (r: Result<set<int>>)
    ensures r.Ok? <==> forall i :: i in ix ==> 0 <= i < n
    ensures r.Ok? ==> forall i :: i in r.value <==> i in ix
  {
    if forall i :: i in ix ==> 0 <= i < n then Ok(set i | i in ix) else Err("ValueError")
  }

  lemma CollectTwo(f: string -> Result<seq<int>>, p: string, q: string)
    requires f(p).Ok? && f(q).Ok?
    ensures Collect(f, [p, q]) == Ok(f(p).value + f(q).value)
  {
    assert [p, q][1..] == [q];
    var qs := [q];
    assert |qs[1..]| == 0;
    assert Collect(f, qs[1..]) == Ok([]);
    assert f(q).value + [] == f(q).value;
    assert Collect(f, qs) == Ok(f(q).value);
  }

  /** Apart from the add-all answer, the validator accepts exactly when every
      part is well formed and names games only, and it then returns exactly
      the indices some part asks for. */
  lemma {:induction false} SelectionMeaning(value: string, n: nat)
    requires Strip(value) != NatToString(n + 1)
    ensures var parts := Split(value, ',');
      SelectionValidator(value, n).Ok? <==>
        PartsOk(PartIndices, parts) &&
        (forall i :: PickedBy(PartIndices, parts, i) ==> 0 <= i < n)
    ensures var parts := Split(value, ',');
      SelectionValidator(value, n).Ok? ==>
        forall i :: i in SelectionValidator(value, n).value <==> PickedBy(PartIndices, parts, i)
  {
    var parts := Split(value, ',');
    var c := Collect(PartIndices, parts);
    var r := SelectionValidator(value, n);
    if c.Ok? {
      assert r == InRange(c.value, n);
    } else {
      assert r == Err(c.reason);
    }
  }

  /** A part that is empty once stripped, that is not a number and has no
      `-`, or whose `-` pieces are not exactly two, makes `int()` or the
      two-name unpacking raise `ValueError`; so the whole answer is
      rejected, whatever the other parts say. */
  lemma MalformedPartRejected(value: string, n: nat, part: string)
    requires Strip(value) != NatToString(n + 1)
    requires part in Split(value, ',')
    requires Strip(part) == [] || ('-' !in Strip(part) && !IsDigits(Strip(part))) ||
      ('-' in Strip(part) && |Split(Strip(part), '-')| != 2)
    ensures PartIndices(part).Err?
    ensures SelectionValidator(value, n).Err?
  {
    StripCharsKeeps(Strip(part), Whitespace);
    assert PartIndices(part).Err?;
    var parts := Split(value, ',');
    var k :| 0 <= k < |parts| && parts[k] == part;
    assert !PartsOk(PartIndices, parts);
    SelectionMeaning(value, n);
  }

  lemma DigitsHaveNoSeparators(s: string)
    requires IsDigits(s)
    ensures '-' !in s && ',' !in s
    ensures s[0] !in Whitespace && s[|s| - 1] !in Whitespace
  {
  }

  /** A part without surrounding whitespace is read as it stands. */
  lemma StrippedPart(p: string)
    requires p != [] && p[0] !in Whitespace && p[|p| - 1] !in Whitespace
    ensures PartIndices(p) == if '-' in p then RangeIndices(Split(p, '-')) else NumberIndices(p)
  {
    StripCharsKeeps(p, Whitespace);
  }

  /** A number part "a" asks for index a-1. */
  lemma {:induction false} NumberPart(a: nat)
    ensures PartIndices(NatToString(a)) == Ok([a - 1])
  {
    var x := NatToString(a);
    DigitsHaveNoSeparators(x);
    ParseIntOfString(a);
    StrippedPart(x);
  }

  /** A range part "x-y" of two digit strings is read as a range of the two numbers. */
  lemma DigitRangePart(x: string, y: string)
    requires IsDigits(x) && IsDigits(y)
    ensures PartIndices(x + "-" + y) == RangeIndices([x, y])
  {
    var p := x + "-" + y;
    assert p[0] == x[0] && p[|p| - 1] == y[|y| - 1] && p[|x|] == '-';
    DigitsHaveNoSeparators(x);
    DigitsHaveNoSeparators(y);
    assert JoinWith([x, y], '-') == x + ['-'] + JoinWith([y], '-');
    SplitJoin([x, y], '-');
    StrippedPart(p);
  }

  /** A range part "a-b" asks for a-1, a, ..., b-1; nothing when a > b. */
  lemma {:induction false} RangePart(a: nat, b: nat)
    ensures PartIndices(NatToString(a) + "-" + NatToString(b)) == Ok(Range(a - 1, b))
  {
    DigitRangePart(NatToString(a), NatToString(b));
    RangeOfNumbers(a, b);
  }

  lemma {:induction false} RangeOfNumbers(a: nat, b: nat)
    ensures RangeIndices([NatToString(a), NatToString(b)]) == Ok(Range(a - 1, b))
  {
    ParseIntOfString(a);
    ParseIntOfString(b);
  }

  /** An answer without surrounding whitespace that contains a `-` or a `,` is
      never the add-all number, so it is read part by part. */
  lemma {:induction false} ReadPartByPart(value: string, n: nat)
    requires value != [] && value[0] !in Whitespace && value[|value| - 1] !in Whitespace
    requires '-' in value || ',' in value
    ensures Collect(PartIndices, Split(value, ',')).Err? ==>
      SelectionValidator(value, n) == Err(Collect(PartIndices, Split(value, ',')).reason)
    ensures Collect(PartIndices, Split(value, ',')).Ok? ==>
      SelectionValidator(value, n) == InRange(Collect(PartIndices, Split(value, ',')).value, n)
  {
    StripCharsKeeps(value, Whitespace);
    DigitsHaveNoSeparators(NatToString(n + 1));
  }

  /** A reversed range such as "4-2" alone is accepted and selects nothing. */
  lemma {:induction false} ReversedRangeSelectsNothing(a: nat, b: nat, n: nat)
    requires a > b
    ensures SelectionValidator(NatToString(a) + "-" + NatToString(b), n).Ok?
    ensures |SelectionValidator(NatToString(a) + "-" + NatToString(b), n).value| == 0
  {
    var x, y := NatToString(a), NatToString(b);
    var p := x + "-" + y;
    DigitsHaveNoSeparators(x);
    DigitsHaveNoSeparators(y);
    assert p[0] == x[0] && p[|p| - 1] == y[|y| - 1] && p[|x|] == '-';
    ReadPartByPart(p, n);
    assert Split(p, ',') == [p];
    RangePart(a, b);
    assert PartIndices(p) == Ok([]);
    assert [p][1..] == [];
    assert Collect(PartIndices, [p]) == Ok([] + []);
    var none: seq<int> := [];
    assert none + none == none;
    assert Collect(PartIndices, Split(p, ',')) == Ok([]);
    var r := InRange([], n);
    assert r.Ok? && forall i :: i !in r.value;
    assert r.value == {};
    assert SelectionValidator(p, n) == r;
  }

  /** An answer such as "2-4,7" selects the games of the range and the single
      game, as 0-based indices, when all of them exist. */
  lemma {:induction false} RangeAndNumber(a: nat, b: nat, c: nat, n: nat)
    requires 1 <= a && b <= n && 1 <= c <= n
    ensures var value := NatToString(a) + "-" + NatToString(b) + "," + NatToString(c);
      var r := SelectionValidator(value, n);
      r.Ok? && forall i :: i in r.value <==> (a - 1 <= i < b || i == c - 1)
  {
    RangeAndNumberText(a, b, c, n);
    RangeThenNumber(a, b, c, Range(a - 1, b) + [c - 1]);
  }

  /** "a-b,c" is read as the indices of the range followed by the number. */
  lemma RangeAndNumberText(a: nat, b: nat, c: nat, n: nat)
    ensures var value := NatToString(a) + "-" + NatToString(b) + "," + NatToString(c);
      SelectionValidator(value, n) == InRange(Range(a - 1, b) + [c - 1], n)
  {
    var x, y, z := NatToString(a), NatToString(b), NatToString(c);
    var p1 := x + "-" + y;
    var value := p1 + "," + z;
    RangeAndNumberParts(a, b, c);
    DigitsHaveNoSeparators(x);
    DigitsHaveNoSeparators(z);
    assert value[0] == x[0] && value[|value| - 1] == z[|z| - 1] && value[|p1|] == ',';
    ReadPartByPart(value, n);
  }

  lemma RangeThenNumber(a: nat, b: nat, c: nat, ix: seq<int>)
    requires ix == Range(a - 1, b) + [c - 1]
    ensures forall i :: i in ix <==> (a - 1 <= i < b || i == c - 1)
  {
    forall i ensures i in ix <==> (a - 1 <= i < b || i == c - 1) {
      if a - 1 <= i < b {
        assert Range(a - 1, b)[i - (a - 1)] == i;
      }
    }
  }

  lemma {:induction false} RangeAndNumberParts(a: nat, b: nat, c: nat)
    ensures var p1 := NatToString(a) + "-" + NatToString(b);
      Collect(PartIndices, Split(p1 + "," + NatToString(c), ',')) == Ok(Range(a - 1, b) + [c - 1])
  {
    var x, y, z := NatToString(a), NatToString(b), NatToString(c);
    var p1 := x + "-" + y;
    DigitsHaveNoSeparators(x);
    DigitsHaveNoSeparators(y);
    DigitsHaveNoSeparators(z);
    SplitTwo(p1, z, ',');
    RangePart(a, b);
    NumberPart(c);
    CollectTwo(PartIndices, p1, z);
  }
}
