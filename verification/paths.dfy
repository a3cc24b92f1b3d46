/** POSIX path helpers with the meaning of Python's `os.path.join`,
    `os.path.expanduser`, `os.path.splitext` and `p.split('/')[-1]`. */
module Paths {
  import opened Text

  /** `os.path.join(a, b)`: an absolute `b` replaces `a`; otherwise one `/`
      separates them unless `a` is empty or already ends with one. */
  function Join(a: string, b: string): (r: string)
    ensures EndsWith(r, b)
    ensures StartsWith(b, "/") ==> r == b
    ensures !StartsWith(b, "/") ==> StartsWith(r, a)
    ensures !StartsWith(b, "/") && a != "" ==> |r| > |b| && r[|r| - |b| - 1] == '/'
  {
    if StartsWith(b, "/") then b
    else if a == "" || EndsWith(a, "/") then a + b
    else a + "/" + b
  }

  /** The text after the last `/` (all of `p` when it has none): `p.split('/')[-1]`. */
  function LastSegment(p: string): (r: string)
    ensures '/' !in r
    ensures |r| <= |p| && r == p[|p| - |r|..]
    ensures |r| == |p| || p[|p| - |r| - 1] == '/'
  {
    if p == [] || p[|p| - 1] == '/' then []
    else LastSegment(p[..|p| - 1]) + [p[|p| - 1]]
  }

  lemma {:induction false} LastSegmentAfterSlash(x: string, name: string)
    requires x != [] && x[|x| - 1] == '/' && '/' !in name
    ensures LastSegment(x + name) == name
    decreases |name|
  {
    if name == [] {
      assert x + name == x;
    } else {
      var p := x + name;
      assert p[..|p| - 1] == x + name[..|name| - 1];
      LastSegmentAfterSlash(x, name[..|name| - 1]);
    }
  }

  /** The last segment of a relative name joined under a directory is the name. */
  lemma LastSegmentOfJoin(dir: string, name: string)
    requires dir != [] && '/' !in name
    ensures LastSegment(Join(dir, name)) == name
  {
    if EndsWith(dir, "/") {
      LastSegmentAfterSlash(dir, name);
    } else {
      assert dir + "/" + name == (dir + "/") + name;
      LastSegmentAfterSlash(dir + "/", name);
    }
  }

  /** `os.path.expanduser(p)` with the current user's home directory `home`:
      a leading `~` alone or followed by `/` becomes `home` without trailing
      slashes, and an empty outcome becomes `/`. */
  function ExpandUser(p: string, home: string): (r: string)
    ensures !StartsWith(p, "~") ==> r == p
    ensures r != []  || p == []
  {
    if StartsWith(p, "~") && (|p| == 1 || p[1] == '/') then
      var e := TrimRight(home, Slashes) + p[1..];
      if e == [] then "/" else e
    else p
  }

  /** `~/rest` expands to the home directory without trailing slashes, then `/rest`. */
  lemma ExpandHome(rest: string, home: string)
    requires rest != [] && rest[0] == '/'
    ensures ExpandUser("~" + rest, home) == TrimRight(home, Slashes) + rest
  {
    var p := "~" + rest;
    assert StartsWith(p, "~") && p[1] == '/' && p[1..] == rest;
  }

  function LastIndexOf(s: string, c: char): (i: nat)
    requires c in s
    ensures i < |s| && s[i] == c && c !in s[i + 1..]
  {
    if s[|s| - 1] == c then |s| - 1
    else
      assert c in s[..|s| - 1] by {
        var k :| 0 <= k < |s| && s[k] == c;
        assert s[..|s| - 1][k] == c;
      }
      LastIndexOf(s[..|s| - 1], c)
  }

  /** `os.path.splitext(name)` for a name without `/`: the extension starts at
      the last `.` unless every character before that dot is itself a dot. */
  function SplitExt(name: string): (r: (string, string))
    ensures r.0 + r.1 == name
    ensures r.1 == [] || (r.1[0] == '.' && '.' !in r.1[1..])
    ensures r.1 != [] ==> exists k :: 0 <= k < |r.0| && r.0[k] != '.'
  {
    if '.' !in name then (name, [])
    else
      var d := LastIndexOf(name, '.');
      if exists k :: 0 <= k < d && name[k] != '.' then
        assert name[..d] + name[d..] == name;
        (name[..d], name[d..])
      else (name, [])
  }

  /** A stem with some non-dot character followed by `.ext` splits at that dot. */
  lemma SplitExtOf(stem: string, ext: string)
    requires exists k :: 0 <= k < |stem| && stem[k] != '.'
    requires '.' !in ext
    ensures SplitExt(stem + "." + ext) == (stem, "." + ext)
  {
    var name := stem + "." + ext;
    assert name[|stem|] == '.';
    var d := LastIndexOf(name, '.');
    assert d == |stem|;
    var k :| 0 <= k < |stem| && stem[k] != '.';
    assert name[k] != '.';
    assert name[..d] == stem;
    assert name[d..] == "." + ext;
  }
}
