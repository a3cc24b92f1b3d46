/** String helpers with the meaning Python's `str` methods have on ASCII text:
    `strip`, `lower`, `upper`, `split`, `startswith`, `endswith`, `in`,
    `replace` of one character, `str(n)` and `int(s)` on plain decimal digits. */
module Text {
  import opened Wrappers

  /** The ASCII characters for which Python's `str.isspace` holds. */
  const Whitespace: set<char> :=
    {' ', '\t', '\n', '\r', '\U{B}', '\U{C}', '\U{1C}', '\U{1D}', '\U{1E}', '\U{1F}'}

  /** The double-quote character. */
  const Quote: char := 34 as char

  /** The double quote, as a set for `strip`. */
  const QuoteSet: set<char> := {Quote}

  /** The path separator, as a set for `rstrip`. */
  const Slashes: set<char> := {'/'}

  /** The characters `bytes.strip()` removes (no information separators). */
  const ByteWhitespace: set<char> := {' ', '\t', '\n', '\r', '\U{B}', '\U{C}'}

  predicate AllIn(s: string, cs: set<char>) {
    forall k :: 0 <= k < |s| ==> s[k] in cs
  }

  // ---------------------------------------------------------------- strip

  /** `s.lstrip(cs)`: the longest suffix of `s` that does not start with a member of `cs`. */
  function TrimLeft(s: string, cs: set<char>): (r: string)
    ensures |r| <= |s|
    ensures r == [] || r[0] !in cs
    ensures AllIn(s[..|s| - |r|], cs)
  {
    if |s| > 0 && s[0] in cs then TrimLeft(s[1..], cs) else s
  }

  /** `s.rstrip(cs)`: the longest prefix of `s` that does not end with a member of `cs`. */
  function TrimRight(s: string, cs: set<char>): (r: string)
    ensures |r| <= |s|
    ensures r == [] || r[|r| - 1] !in cs
    ensures AllIn(s[|r|..], cs)
  {
    if |s| > 0 && s[|s| - 1] in cs then TrimRight(s[..|s| - 1], cs) else s
  }

  /** What `lstrip` keeps is a suffix of its input. */
  lemma {:induction false} TrimLeftSuffix(s: string, cs: set<char>)
    ensures TrimLeft(s, cs) == s[|s| - |TrimLeft(s, cs)|..]
    decreases |s|
  {
    if |s| > 0 && s[0] in cs {
      TrimLeftSuffix(s[1..], cs);
    }
  }

  /** What `rstrip` keeps is a prefix of its input. */
  lemma {:induction false} TrimRightPrefix(s: string, cs: set<char>)
    ensures TrimRight(s, cs) == s[..|TrimRight(s, cs)|]
    decreases |s|
  {
    if |s| > 0 && s[|s| - 1] in cs {
      TrimRightPrefix(s[..|s| - 1], cs);
    }
  }

  /** What `strip` keeps is a contiguous piece of its input. */
  lemma StripCharsSlice(s: string, cs: set<char>)
    ensures var a := |s| - |TrimLeft(s, cs)|;
      a + |StripChars(s, cs)| <= |s| && StripChars(s, cs) == s[a..a + |StripChars(s, cs)|]
  {
    var t := TrimLeft(s, cs);
    TrimLeftSuffix(s, cs);
    TrimRightPrefix(t, cs);
  }

  /** `s.strip(cs)`: `s` without its leading and trailing members of `cs`. */
  function StripChars(s: string, cs: set<char>): (r: string)
    ensures |r| <= |s|
    ensures r == [] || (r[0] !in cs && r[|r| - 1] !in cs)
  {
    var t := TrimLeft(s, cs);
    TrimRightPrefix(t, cs);
    TrimRight(t, cs)
  }

  /** `s.strip()` with no argument. */
  function Strip(s: string): string {
    StripChars(s, Whitespace)
  }

  /** A character outside `cs` survives stripping. */
  lemma StripCharsKeepsOthers(s: string, cs: set<char>, c: char)
    requires c in s && c !in cs
    ensures c in StripChars(s, cs)
  {
    var t := TrimLeft(s, cs);
    TrimLeftSuffix(s, cs);
    var j :| 0 <= j < |s| && s[j] == c;
    var a := |s| - |t|;
    assert j >= a;
    assert t[j - a] == c;
    var r := StripChars(s, cs);
    TrimRightPrefix(t, cs);
    assert j - a < |r|;
    assert r[j - a] == c;
  }

  /** Stripping leaves nothing exactly when every character is stripped. */
  lemma StripCharsEmpty(s: string, cs: set<char>)
    ensures StripChars(s, cs) == [] <==> AllIn(s, cs)
  {
    var t := TrimLeft(s, cs);
    if AllIn(s, cs) {
      TrimLeftAll(s, cs);
    }
  }

  lemma StripCharsKeeps(s: string, cs: set<char>)
    requires s == [] || (s[0] !in cs && s[|s| - 1] !in cs)
    ensures StripChars(s, cs) == s
  {
  }

  lemma {:induction false} TrimLeftPadded(a: string, s: string, cs: set<char>)
    requires AllIn(a, cs)
    ensures TrimLeft(a + s, cs) == TrimLeft(s, cs)
    decreases |a|
  {
    if |a| > 0 {
      var t := a + s;
      assert t[0] == a[0] && a[0] in cs;
      assert TrimLeft(t, cs) == TrimLeft(t[1..], cs);
      assert t[1..] == a[1..] + s;
      TrimLeftPadded(a[1..], s, cs);
    } else {
      assert a + s == s;
    }
  }

  lemma {:induction false} TrimRightPadded(s: string, b: string, cs: set<char>)
    requires AllIn(b, cs)
    ensures TrimRight(s + b, cs) == TrimRight(s, cs)
    decreases |b|
  {
    if |b| > 0 {
      var t := s + b;
      assert t[|t| - 1] == b[|b| - 1] && b[|b| - 1] in cs;
      assert TrimRight(t, cs) == TrimRight(t[..|t| - 1], cs);
      assert t[..|t| - 1] == s + b[..|b| - 1];
      TrimRightPadded(s, b[..|b| - 1], cs);
    } else {
      assert s + b == s;
    }
  }

  lemma {:induction false} TrimLeftAppend(s: string, b: string, cs: set<char>)
    requires exists k :: 0 <= k < |s| && s[k] !in cs
    ensures TrimLeft(s + b, cs) == TrimLeft(s, cs) + b
    decreases |s|
  {
    if s[0] in cs {
      assert (s + b)[1..] == s[1..] + b;
      var k :| 0 <= k < |s| && s[k] !in cs;
      assert s[1..][k - 1] !in cs;
      TrimLeftAppend(s[1..], b, cs);
    }
  }

  lemma TrimLeftAll(s: string, cs: set<char>)
    requires AllIn(s, cs)
    ensures TrimLeft(s, cs) == []
  {
  }

  /** Whatever padding of `cs` members surrounds `s`, stripping gives the same text. */
  lemma StripCharsPadded(a: string, s: string, b: string, cs: set<char>)
    requires AllIn(a, cs) && AllIn(b, cs)
    ensures StripChars(a + s + b, cs) == StripChars(s, cs)
  {
    assert a + s + b == a + (s + b);
    TrimLeftPadded(a, s + b, cs);
    if exists k :: 0 <= k < |s| && s[k] !in cs {
      TrimLeftAppend(s, b, cs);
      TrimRightPadded(TrimLeft(s, cs), b, cs);
    } else {
      assert AllIn(s + b, cs);
      TrimLeftAll(s + b, cs);
      TrimLeftAll(s, cs);
    }
  }

  // ---------------------------------------------------------------- case

  function LowerChar(c: char): char {
    if 'A' <= c <= 'Z' then (c as int + 32) as char else c
  }

  function UpperChar(c: char): char {
    if 'a' <= c <= 'z' then (c as int - 32) as char else c
  }

  /** `s.lower()` on ASCII letters; every other character is kept. */
  function Lower(s: string): (r: string)
    ensures |r| == |s|
    ensures forall k :: 0 <= k < |s| ==> r[k] == LowerChar(s[k])
  {
    if |s| == 0 then [] else [LowerChar(s[0])] + Lower(s[1..])
  }

  /** `s.upper()` on ASCII letters; every other character is kept. */
  function Upper(s: string): (r: string)
    ensures |r| == |s|
    ensures forall k :: 0 <= k < |s| ==> r[k] == UpperChar(s[k])
  {
    if |s| == 0 then [] else [UpperChar(s[0])] + Upper(s[1..])
  }

  lemma LowerCharSpace(c: char)
    ensures LowerChar(c) in Whitespace <==> c in Whitespace
  {
  }

  lemma {:induction false} LowerTrimLeft(s: string)
    ensures Lower(TrimLeft(s, Whitespace)) == TrimLeft(Lower(s), Whitespace)
    decreases |s|
  {
    if |s| > 0 {
      LowerCharSpace(s[0]);
      assert Lower(s)[1..] == Lower(s[1..]);
      LowerTrimLeft(s[1..]);
    }
  }

  lemma {:induction false} LowerTrimRight(s: string)
    ensures Lower(TrimRight(s, Whitespace)) == TrimRight(Lower(s), Whitespace)
    decreases |s|
  {
    if |s| > 0 {
      LowerCharSpace(s[|s| - 1]);
      assert Lower(s)[..|s| - 1] == Lower(s[..|s| - 1]);
      LowerTrimRight(s[..|s| - 1]);
    }
  }

  /** Lower-casing and stripping commute, since case mapping never turns a
      character into whitespace or back. */
  lemma LowerStrip(s: string)
    ensures Lower(Strip(s)) == Strip(Lower(s))
  {
    LowerTrimLeft(s);
    LowerTrimRight(TrimLeft(s, Whitespace));
  }

  // ---------------------------------------------------------------- tests

  predicate StartsWith(s: string, p: string) {
    |p| <= |s| && s[..|p|] == p
  }

  predicate EndsWith(s: string, p: string) {
    |p| <= |s| && s[|s| - |p|..] == p
  }

  /** Python's `t in s` for strings: `t` occurs somewhere in `s`. */
  predicate Contains(s: string, t: string)
    decreases |s|
  {
    StartsWith(s, t) || (|s| > 0 && Contains(s[1..], t))
  }

  lemma {:induction false} ContainsAt(s: string, t: string, i: nat)
    requires i + |t| <= |s| && s[i..i + |t|] == t
    ensures Contains(s, t)
    decreases i
  {
    if i > 0 {
      assert s[1..][i - 1..i - 1 + |t|] == s[i..i + |t|];
      ContainsAt(s[1..], t, i - 1);
    }
  }

  // ---------------------------------------------------------------- replace

  /** `s.replace(a, b)` for single characters `a` and `b`. */
  function ReplaceChar(s: string, a: char, b: char): (r: string)
    ensures |r| == |s|
    ensures forall k :: 0 <= k < |s| ==> r[k] == (if s[k] == a then b else s[k])
  {
    if |s| == 0 then [] else [if s[0] == a then b else s[0]] + ReplaceChar(s[1..], a, b)
  }

  /** `s.replace(a, "")`: `s` with every occurrence of `a` removed. That
      every other character is kept as often as in `s` is `DeleteCounts`;
      that the order is kept is `DeleteAppend` together with `DeleteSingle`. */
  function DeleteChar(s: string, a: char): (r: string)
    ensures a !in r
    ensures |r| <= |s|
    ensures forall c :: c in r ==> c in s
    ensures a !in s ==> r == s
  {
    if |s| == 0 then [] else (if s[0] == a then [] else [s[0]]) + DeleteChar(s[1..], a)
  }

  /** Deletion removes every `a` and keeps every other character as often
      as it occurs in `s`. */
  lemma {:induction false} DeleteCounts(s: string, a: char)
    ensures multiset(DeleteChar(s, a)) == multiset(s)[a := 0]
    decreases |s|
  {
    if s != [] {
      DeleteCounts(s[1..], a);
      assert s == [s[0]] + s[1..];
    }
  }

  /** Deleting from a concatenation deletes from each part, in order. */
  lemma {:induction false} DeleteAppend(s: string, t: string, a: char)
    ensures DeleteChar(s + t, a) == DeleteChar(s, a) + DeleteChar(t, a)
    decreases |s|
  {
    if s == [] {
      assert s + t == t;
    } else {
      assert (s + t)[1..] == s[1..] + t;
      DeleteAppend(s[1..], t, a);
      var h := if s[0] == a then [] else [s[0]];
      assert DeleteChar(s + t, a) == h + (DeleteChar(s[1..], a) + DeleteChar(t, a));
      assert h + (DeleteChar(s[1..], a) + DeleteChar(t, a)) == (h + DeleteChar(s[1..], a)) + DeleteChar(t, a);
    }
  }

  /** On one character, deletion drops exactly `a` and keeps anything else. */
  lemma DeleteSingle(c: char, a: char)
    ensures DeleteChar([c], a) == (if c == a then [] else [c])
  {
  }

  /** Deletion commutes with a character map that sends `a`, and only `a`,
      to `b`: deleting `b` from the mapped string maps the string with `a`
      deleted. */
  lemma {:induction false} DeleteMapped(s: string, t: string, f: char -> char, a: char, b: char)
    requires |t| == |s|
    requires forall k :: 0 <= k < |s| ==> t[k] == f(s[k])
    requires forall c :: f(c) == b <==> c == a
    ensures |DeleteChar(t, b)| == |DeleteChar(s, a)|
    ensures forall k :: 0 <= k < |DeleteChar(s, a)| ==> DeleteChar(t, b)[k] == f(DeleteChar(s, a)[k])
    decreases |s|
  {
    if |s| > 0 {
      var s', t' := s[1..], t[1..];
      assert forall k :: 0 <= k < |s'| ==> t'[k] == t[k + 1] == f(s[k + 1]) == f(s'[k]);
      DeleteMapped(s', t', f, a, b);
      assert t[0] == f(s[0]);
      if s[0] != a {
        ConsMapped(s[0], t[0], DeleteChar(s', a), DeleteChar(t', b), f);
      }
    }
  }

  /** Prefixing a character and its image keeps a pointwise map pointwise. */
  lemma ConsMapped(x: char, y: char, xs: string, ys: string, f: char -> char)
    requires y == f(x) && |ys| == |xs|
    requires forall k :: 0 <= k < |xs| ==> ys[k] == f(xs[k])
    ensures forall k :: 0 <= k < |xs| + 1 ==> ([y] + ys)[k] == f(([x] + xs)[k])
  {
  }

  // ---------------------------------------------------------------- scanning

  /** The first position from `i` on whose character is not in `cs` (`|s|` if none). */
  function SkipIn(s: string, cs: set<char>, i: nat): (n: nat)
    requires i <= |s|
    ensures i <= n <= |s|
    ensures forall k :: i <= k < n ==> s[k] in cs
    ensures n == |s| || s[n] !in cs
    decreases |s| - i
  {
    if i < |s| && s[i] in cs then SkipIn(s, cs, i + 1) else i
  }

  /** The first position from `i` on that holds `c` (`|s|` if none). */
  function FindFrom(s: string, c: char, i: nat): (n: nat)
    requires i <= |s|
    ensures i <= n <= |s|
    ensures forall k :: i <= k < n ==> s[k] != c
    ensures n == |s| || s[n] == c
    decreases |s| - i
  {
    if i < |s| && s[i] != c then FindFrom(s, c, i + 1) else i
  }

  /** The first position from `i` on whose character is in `cs` (`|s|` if none). */
  function FindIn(s: string, cs: set<char>, i: nat): (n: nat)
    requires i <= |s|
    ensures i <= n <= |s|
    ensures forall k :: i <= k < n ==> s[k] !in cs
    ensures n == |s| || s[n] in cs
    decreases |s| - i
  {
    if i < |s| && s[i] !in cs then FindIn(s, cs, i + 1) else i
  }

  /** `SkipIn` stops exactly at the first position from `i` outside `cs`. */
  lemma {:induction false} SkipInAt(s: string, cs: set<char>, i: nat, n: nat)
    requires i <= n <= |s|
    requires forall k :: i <= k < n ==> s[k] in cs
    requires n == |s| || s[n] !in cs
    ensures SkipIn(s, cs, i) == n
    decreases n - i
  {
    if i < n {
      SkipInAt(s, cs, i + 1, n);
    }
  }

  /** `FindIn` stops exactly at the first position from `i` inside `cs`. */
  lemma {:induction false} FindInAt(s: string, cs: set<char>, i: nat, n: nat)
    requires i <= n <= |s|
    requires forall k :: i <= k < n ==> s[k] !in cs
    requires n == |s| || s[n] in cs
    ensures FindIn(s, cs, i) == n
    decreases n - i
  {
    if i < n {
      FindInAt(s, cs, i + 1, n);
    }
  }

  /** `FindFrom` stops exactly at the first occurrence of `c` from `i` on. */
  lemma {:induction false} FindFromAt(s: string, c: char, i: nat, n: nat)
    requires i <= n <= |s|
    requires forall k :: i <= k < n ==> s[k] != c
    requires n == |s| || s[n] == c
    ensures FindFrom(s, c, i) == n
    decreases n - i
  {
    if i < n {
      FindFromAt(s, c, i + 1, n);
    }
  }

  // ---------------------------------------------------------------- split

  function IndexOf(s: string, c: char): (i: nat)
    requires c in s
    ensures i < |s| && s[i] == c && c !in s[..i]
  {
    if s[0] == c then 0 else 1 + IndexOf(s[1..], c)
  }

  /** The pieces separated by `c`, glued back with `c` between neighbours. */
  function JoinWith(parts: seq<string>, c: char): string {
    if |parts| == 0 then []
    else if |parts| == 1 then parts[0]
    else parts[0] + [c] + JoinWith(parts[1..], c)
  }

  /** Two pieces without the separator, joined by it, split back into the two. */
  lemma SplitTwo(p: string, q: string, c: char)
    requires c !in p && c !in q
    ensures Split(p + [c] + q, c) == [p, q]
  {
    assert JoinWith([p, q], c) == p + [c] + JoinWith([q], c);
    SplitJoin([p, q], c);
  }

  /** `s.split(c)` for a single-character separator: never empty, and no
      piece contains the separator (`JoinSplit` glues the pieces back). */
  function Split(s: string, c: char): (r: seq<string>)
    ensures |r| >= 1
    ensures forall k :: 0 <= k < |r| ==> c !in r[k]
    decreases |s|
  {
    if c !in s then [s]
    else
      var i := IndexOf(s, c);
      [s[..i]] + Split(s[i + 1..], c)
  }

  /** Joining the pieces of a split with the separator gives the text back. */
  lemma {:induction false} JoinSplit(s: string, c: char)
    ensures JoinWith(Split(s, c), c) == s
    decreases |s|
  {
    if c in s {
      var i := IndexOf(s, c);
      var pieces := Split(s, c);
      var rest := Split(s[i + 1..], c);
      assert pieces == [s[..i]] + rest;
      assert JoinWith(pieces, c) == s[..i] + [c] + JoinWith(rest, c) by {
        assert |pieces| > 1 && pieces[0] == s[..i] && pieces[1..] == rest;
      }
      JoinSplit(s[i + 1..], c);
      assert s == s[..i] + [c] + s[i + 1..];
    }
  }

  /** Splitting a joined list of separator-free pieces returns the pieces. */
  lemma {:induction false} SplitJoin(parts: seq<string>, c: char)
    requires |parts| >= 1
    requires forall k :: 0 <= k < |parts| ==> c !in parts[k]
    ensures Split(JoinWith(parts, c), c) == parts
    decreases |parts|
  {
    if |parts| > 1 {
      var s := JoinWith(parts, c);
      var p := parts[0];
      assert s == p + [c] + JoinWith(parts[1..], c);
      assert s[|p|] == c;
      assert s[..|p|] == p;
      assert IndexOf(s, c) == |p|;
      assert s[|p| + 1..] == JoinWith(parts[1..], c);
      SplitJoin(parts[1..], c);
    }
  }

  // ---------------------------------------------------------------- digits

  predicate IsDigit(c: char) {
    '0' <= c <= '9'
  }

  /** `s.isdigit()` on ASCII: non-empty and decimal digits only. */
  predicate IsDigits(s: string) {
    |s| > 0 && forall k :: 0 <= k < |s| ==> IsDigit(s[k])
  }

  function DigitsValue(s: string): nat
    requires forall k :: 0 <= k < |s| ==> IsDigit(s[k])
  {
    if |s| == 0 then 0
    else
      assert IsDigit(s[|s| - 1]);
      10 * DigitsValue(s[..|s| - 1]) + (s[|s| - 1] as int - '0' as int)
  }

  function DigitChar(d: nat): (c: char)
    requires d < 10
    ensures IsDigit(c) && c as int - '0' as int == d
  {
    "0123456789"[d]
  }

  /** `str(n)` for a natural number: decimal digits, no leading zero. */
  function NatToString(n: nat): (r: string)
    ensures IsDigits(r)
    ensures |r| > 1 ==> r[0] != '0'
  {
    if n < 10 then [DigitChar(n)]
    else NatToString(n / 10) + [DigitChar(n % 10)]
  }

  /** `str(n)` for any integer. */
  function IntToString(n: int): string {
    if n < 0 then "-" + NatToString(-n) else NatToString(n)
  }

  lemma {:induction false} NatToStringValue(n: nat)
    ensures DigitsValue(NatToString(n)) == n
  {
    if n >= 10 {
      var s := NatToString(n);
      assert s[..|s| - 1] == NatToString(n / 10);
      NatToStringValue(n / 10);
    }
  }

  /** `int(s)` restricted to unsigned ASCII decimals: surrounding whitespace is
      ignored, anything else that is not a digit makes it fail. */
  function ParseInt(s: string): (r: Option<nat>)
    ensures r.Some? <==> IsDigits(Strip(s))
  {
    var t := Strip(s);
    if IsDigits(t) then Some(DigitsValue(t)) else None
  }

  /** `int(str(n)) == n`. */
  lemma ParseIntOfString(n: nat)
    ensures ParseInt(NatToString(n)) == Some(n)
  {
    var s := NatToString(n);
    StripCharsKeeps(s, Whitespace);
    NatToStringValue(n);
  }
}
