/** The Steam adapter (launchers/steam.py): quoted key/value lines of Valve's
    VDF text format, the library list, app manifests and the game filter. */
module Steam {
  import opened Wrappers
  import opened Text
  import opened Paths

  // ---------------------------------------------------------------- one VDF line

  /** A line of the form `ws "key" ws "value" rest`, split into its parts. */
  datatype VdfLine = VdfLine(indent: string, key: string, gap: string, value: string, rest: string)

  /** The parts a match can have: blank padding and quote-free tokens. */
  predicate WellFormed(m: VdfLine) {
    AllIn(m.indent, Whitespace) && AllIn(m.gap, Whitespace) && Quote !in m.key && Quote !in m.value
  }

  function Render(m: VdfLine): string {
    m.indent + [Quote] + m.key + [Quote] + m.gap + [Quote] + m.value + [Quote] + m.rest
  }

  /** Positions of the four quotes of a `"key" "value"` line. */
  datatype Quotes = Quotes(a: nat, b: nat, c: nat, d: nat)

  /** The four quotes sit in order inside `line`, only blanks precede the
      first, none lies inside the key or the value, and only blanks lie
      between the second and the third. */
  predicate QuotesOf(line: string, q: Quotes) {
    q.a < q.b < q.c < q.d < |line| &&
    line[q.a] == Quote && line[q.b] == Quote && line[q.c] == Quote && line[q.d] == Quote &&
    (forall k :: 0 <= k < q.a ==> line[k] in Whitespace) &&
    (forall k :: q.a < k < q.b ==> line[k] != Quote) &&
    (forall k :: q.b < k < q.c ==> line[k] in Whitespace) &&
    (forall k :: q.c < k < q.d ==> line[k] != Quote)
  }

  /** The first quoted token after blanks from `from` on: the positions of its
      opening and closing quote. */
  function QuotedToken(line: string, from: nat): (r: Option<(nat, nat)>)
    requires from <= |line|
    ensures r.Some? ==> from <= r.value.0 < r.value.1 < |line|
    ensures r.Some? ==> line[r.value.0] == Quote && line[r.value.1] == Quote
    ensures r.Some? ==> forall k :: from <= k < r.value.0 ==> line[k] in Whitespace
    ensures r.Some? ==> forall k :: r.value.0 < k < r.value.1 ==> line[k] != Quote
  {
    var a := SkipIn(line, Whitespace, from);
    if a == |line| || line[a] != Quote then None
    else
      var b := FindFrom(line, Quote, a + 1);
      if b == |line| then None else Some((a, b))
  }

  /** A token placed as the pattern demands is the one `QuotedToken` finds. */
  lemma QuotedTokenAt(line: string, from: nat, a: nat, b: nat)
    requires from <= a < b < |line| && line[a] == Quote && line[b] == Quote
    requires forall k :: from <= k < a ==> line[k] in Whitespace
    requires forall k :: a < k < b ==> line[k] != Quote
    ensures QuotedToken(line, from) == Some((a, b))
  {
    assert Quote !in Whitespace;
    SkipInAt(line, Whitespace, from, a);
    FindFromAt(line, Quote, a + 1, b);
  }

  /** The quote positions the regular expression settles on, if it matches. */
  function FindQuotes(line: string): (r: Option<Quotes>)
    ensures r.Some? ==> QuotesOf(line, r.value)
  {
    match QuotedToken(line, 0)
    case None => None
    case Some(key) =>
      match QuotedToken(line, key.1 + 1)
      case None => None
      case Some(value) => Some(Quotes(key.0, key.1, value.0, value.1))
  }

  /** The parts of `line` between its quotes. */
  function Cut(line: string, q: Quotes): (m: VdfLine)
    requires QuotesOf(line, q)
    ensures WellFormed(m) && Render(m) == line
  {
    QuotedSlices(line, q.a, q.b, q.c, q.d);
    VdfLine(line[..q.a], line[q.a + 1..q.b], line[q.b + 1..q.c], line[q.c + 1..q.d], line[q.d + 1..])
  }

  /** A key-value line of a VDF file, if `line` starts with one: optional
      blanks, a quoted key, optional blanks and a quoted value. */
  function MatchVdf(line: string): (r: Option<VdfLine>)
    ensures r.Some? ==> WellFormed(r.value) && Render(r.value) == line
  {
    match FindQuotes(line)
    case Some(q) => Some(Cut(line, q))
    case None => None
  }

  /** A line cut at four quote positions is the concatenation of its pieces. */
  lemma QuotedSlices(s: string, a: nat, b: nat, c: nat, d: nat)
    requires a < b < c < d < |s|
    requires s[a] == Quote && s[b] == Quote && s[c] == Quote && s[d] == Quote
    ensures s == s[..a] + [Quote] + s[a + 1..b] + [Quote] + s[b + 1..c] + [Quote] + s[c + 1..d] + [Quote] + s[d + 1..]
  {
    assert s == s[..a] + [s[a]] + s[a + 1..b] + [s[b]] + s[b + 1..c] + [s[c]] + s[c + 1..d] + [s[d]] + s[d + 1..];
  }

  /** Where the four quotes of a rendered line sit, and what lies between them. */
  lemma RenderShape(m: VdfLine)
    ensures var s, a := Render(m), |m.indent|;
      var b := a + 1 + |m.key|;
      var c := b + 1 + |m.gap|;
      var d := c + 1 + |m.value|;
      d < |s| && s[a] == Quote && s[b] == Quote && s[c] == Quote && s[d] == Quote &&
      s[..a] == m.indent && s[a + 1..b] == m.key && s[b + 1..c] == m.gap &&
      s[c + 1..d] == m.value && s[d + 1..] == m.rest
  {
  }

  /** Quotes placed as the pattern demands are the ones it finds. */
  lemma FindQuotesExact(line: string, q: Quotes)
    requires QuotesOf(line, q)
    ensures FindQuotes(line) == Some(q)
  {
    QuotedTokenAt(line, 0, q.a, q.b);
    QuotedTokenAt(line, q.b + 1, q.c, q.d);
  }

  /** The quote positions of a rendered line. */
  function QuotesOfRender(m: VdfLine): Quotes {
    var b := |m.indent| + 1 + |m.key|;
    var c := b + 1 + |m.gap|;
    Quotes(|m.indent|, b, c, c + 1 + |m.value|)
  }

  lemma RenderQuotes(m: VdfLine)
    requires WellFormed(m)
    ensures QuotesOf(Render(m), QuotesOfRender(m))
  {
    RenderShape(m);
    QuotesOfSlices(Render(m), QuotesOfRender(m), m);
  }

  /** Quotes whose slices between them are the parts of a well-formed line
      sit as the pattern demands. */
  lemma QuotesOfSlices(s: string, q: Quotes, m: VdfLine)
    requires WellFormed(m)
    requires q.a < q.b < q.c < q.d < |s|
    requires s[q.a] == Quote && s[q.b] == Quote && s[q.c] == Quote && s[q.d] == Quote
    requires s[..q.a] == m.indent && s[q.a + 1..q.b] == m.key && s[q.b + 1..q.c] == m.gap && s[q.c + 1..q.d] == m.value
    ensures QuotesOf(s, q)
  {
    SliceChars(s, 0, q.a);
    SliceChars(s, q.a + 1, q.b);
    SliceChars(s, q.b + 1, q.c);
    SliceChars(s, q.c + 1, q.d);
  }

  /** Each character of a slice is the character at the same place in the whole. */
  lemma SliceChars(s: string, i: nat, j: nat)
    requires i <= j <= |s|
    ensures forall k :: i <= k < j ==> s[k] == s[i..j][k - i]
  {
  }

  /** Every well-formed line is matched, and the match gives back its parts. */
  lemma MatchVdfRender(m: VdfLine)
    requires WellFormed(m)
    ensures MatchVdf(Render(m)) == Some(m)
  {
    var s, q := Render(m), QuotesOfRender(m);
    RenderQuotes(m);
    assert Cut(s, q) == m by {
      RenderShape(m);
    }
    FindQuotesExact(s, q);
  }

  /** `parse_vdf_value`: the second quoted token of a `"key" "value"` line.
      A line rendered from well-formed parts gives back the value part. */
  function ParseVdfValue(line: string): (r: Option<string>)
    ensures r.Some? ==> Quote !in r.value
    ensures r.Some? <==> MatchVdf(line).Some?
    ensures forall m :: WellFormed(m) && Render(m) == line ==> r == Some(m.value)
  {
    RenderedLines(line);
    match MatchVdf(line)
    case Some(m) => Some(m.value)
    case None => None
  }

  /** Every rendering of well-formed parts is matched as exactly those parts. */
  lemma RenderedLines(line: string)
    ensures forall m :: WellFormed(m) && Render(m) == line ==> MatchVdf(line) == Some(m)
  {
    forall m | WellFormed(m) && Render(m) == line
      ensures MatchVdf(line) == Some(m)
    {
      MatchVdfRender(m);
    }
  }

  /** A rendered `"key" "value"` line reads back as its value. */
  lemma ParseVdfValueOfRender(m: VdfLine)
    requires WellFormed(m)
    ensures ParseVdfValue(Render(m)) == Some(m.value)
  {
    MatchVdfRender(m);
  }

  // ---------------------------------------------------------------- libraryfolders.vdf

  const PathKey: string := "\"path\""

  /** A `"path"` key at the very start of `s`, followed by optional blanks
      and a quoted value: that value and the length of the text it spans. */
  function PathAt(s: string): (r: Option<(string, nat)>)
    ensures r.Some? ==> 0 < r.value.1 <= |s| && Quote !in r.value.0
  {
    if !StartsWith(s, PathKey) then None
    else
      match QuotedToken(s, |PathKey|)
      case None => None
      case Some(tok) =>
        var v := s[tok.0 + 1..tok.1];
        assert forall k :: 0 <= k < |v| ==> v[k] == s[tok.0 + 1 + k];
        Some((v, tok.1 + 1))
  }

  /** The values of the `"path"` keys of a VDF document: each is the quoted
      text that follows the key after optional blanks, and the scan resumes
      after it, left to right. */
  function FindPaths(s: string): (r: seq<string>)
    ensures forall k :: 0 <= k < |r| ==> Quote !in r[k]
    decreases |s|
  {
    if s == [] then []
    else
      match PathAt(s)
      case Some(m) => [m.0] + FindPaths(s[m.1..])
      case None => FindPaths(s[1..])
  }

  /** `parse_libraryfolders`: no paths for a missing file, otherwise every
      `"path"` value of its content. */
  function ParseLibraryFolders(content: Option<string>): (r: seq<string>)
    ensures content.None? ==> r == []
    ensures forall doc :: content == Some(RenderDoc(doc)) && (forall k :: 0 <= k < |doc| ==> EntryOk(doc[k])) ==>
      r == PathValues(doc)
  {
    RenderedDocs();
    match content
    case None => []
    case Some(text) => FindPaths(text)
  }
  // A model of the file's text: quoted keys with quoted values, quoted
  // section names, and braces, one per line.

  datatype VdfItem = Pair(key: string, value: string) | Section(name: string) | Open | Close

  datatype VdfEntry = VdfEntry(indent: string, item: VdfItem)

  function RenderItem(item: VdfItem): string {
    match item
    case Pair(k, v) => [Quote] + k + "\"\t\t\"" + v + [Quote]
    case Section(n) => [Quote] + n + [Quote]
    case Open => "{"
    case Close => "}"
  }

  function RenderEntry(e: VdfEntry): string {
    e.indent + RenderItem(e.item) + "\n"
  }

  function RenderDoc(doc: seq<VdfEntry>): string {
    if doc == [] then [] else RenderEntry(doc[0]) + RenderDoc(doc[1..])
  }

  /** Blank indentation and quote-free tokens; no value and no section name is
      the word `path`, which the pattern would take for a key. */
  predicate EntryOk(e: VdfEntry) {
    AllIn(e.indent, Whitespace) &&
    match e.item
    case Pair(k, v) => Quote !in k && Quote !in v && v != "path"
    case Section(n) => Quote !in n && n != "path"
    case _ => true
  }

  /** The values an entry contributes to the library list. */
  function ItemPaths(item: VdfItem): seq<string> {
    if item.Pair? && item.key == "path" then [item.value] else []
  }

  /** The values of the `"path"` keys, in document order. */
  function PathValues(doc: seq<VdfEntry>): seq<string> {
    if doc == [] then [] else ItemPaths(doc[0].item) + PathValues(doc[1..])
  }

  /** Text without quotes holds no match. */
  lemma {:induction false} SkipQuoteFree(x: string, y: string)
    requires Quote !in x
    ensures FindPaths(x + y) == FindPaths(y)
    decreases |x|
  {
    if x != [] {
      var s := x + y;
      assert s[0] == x[0] && PathKey[0] == Quote;
      assert !StartsWith(s, PathKey) by {
        if |PathKey| <= |s| {
          assert s[..|PathKey|][0] != PathKey[0];
        }
      }
      assert PathAt(s) == None;
      assert FindPaths(s) == FindPaths(s[1..]);
      assert s[1..] == x[1..] + y;
      SkipQuoteFree(x[1..], y);
    } else {
      assert x + y == y;
    }
  }

  /** A quote not followed by `p` starts no match. */
  lemma SkipQuote(y: string)
    requires y == [] || y[0] != 'p'
    ensures FindPaths([Quote] + y) == FindPaths(y)
  {
    var s := [Quote] + y;
    assert !StartsWith(s, PathKey) by {
      if |s| >= |PathKey| {
        assert s[1] != PathKey[1];
      }
    }
    assert s[1..] == y;
  }

  /** A quoted token other than `path` starts no match. */
  lemma SkipToken(t: string, y: string)
    requires Quote !in t && t != "path"
    ensures FindPaths([Quote] + t + [Quote] + y) == FindPaths([Quote] + y)
  {
    var s := [Quote] + t + [Quote] + y;
    assert !StartsWith(s, PathKey) by {
      if |s| >= |PathKey| {
        if |t| < 4 {
          assert s[..6][|t| + 1] == Quote != PathKey[|t| + 1];
        } else if |t| > 4 {
          assert s[..6][5] == t[4] != PathKey[5];
        } else {
          var k :| 0 <= k < 4 && t[k] != "path"[k];
          assert s[..6][k + 1] == t[k] && PathKey[k + 1] == "path"[k];
        }
      }
    }
    assert s[1..] == t + ([Quote] + y);
    SkipQuoteFree(t, [Quote] + y);
  }

  /** A `"path"` pair is one match, giving its value. */
  lemma TakePathPair(v: string, y: string)
    requires Quote !in v
    ensures FindPaths(RenderItem(Pair("path", v)) + y) == [v] + FindPaths(y)
  {
    var s := RenderItem(Pair("path", v)) + y;
    assert s == "\"path\"\t\t\"" + v + [Quote] + y;
    var d := 9 + |v|;
    assert StartsWith(s, PathKey) by {
      assert s[..6] == PathKey;
    }
    assert s[d] == Quote && s[8] == Quote;
    assert forall k :: 8 < k < d ==> s[k] == v[k - 9];
    QuotedTokenAt(s, 6, 8, d);
    assert s[9..d] == v;
    assert s[d + 1..] == y;
  }

  /** The matches in one rendered item, its line end and more text. */
  lemma ItemLinePaths(item: VdfItem, rest: string)
    requires EntryOk(VdfEntry([], item))
    ensures FindPaths(RenderItem(item) + "\n" + rest) == ItemPaths(item) + FindPaths(rest)
  {
    var nl := "\n" + rest;
    assert RenderItem(item) + "\n" + rest == RenderItem(item) + nl;
    SkipQuoteFree("\n", rest);
    match item
    case Open =>
      SkipQuoteFree("{", nl);
    case Close =>
      SkipQuoteFree("}", nl);
    case Section(n) =>
      SectionLinePaths(n, nl);
    case Pair(k, v) =>
      PairLinePaths(k, v, nl);
  }

  lemma SectionLinePaths(n: string, nl: string)
    requires Quote !in n && n != "path"
    requires nl != [] && nl[0] == '\n'
    ensures FindPaths(RenderItem(Section(n)) + nl) == FindPaths(nl)
  {
    SkipToken(n, nl);
    SkipQuote(nl);
  }

  lemma PairLinePaths(k: string, v: string, nl: string)
    requires Quote !in k && Quote !in v && v != "path"
    requires nl != [] && nl[0] == '\n'
    ensures FindPaths(RenderItem(Pair(k, v)) + nl) == ItemPaths(Pair(k, v)) + FindPaths(nl)
  {
    if k == "path" {
      TakePathPair(v, nl);
    } else {
      SkipPair(k, v, nl);
    }
  }

  lemma SkipPair(k: string, v: string, nl: string)
    requires Quote !in k && k != "path" && Quote !in v && v != "path"
    requires nl != [] && nl[0] == '\n'
    ensures FindPaths(RenderItem(Pair(k, v)) + nl) == FindPaths(nl)
  {
    var z := "\t\t" + ([Quote] + v + [Quote] + nl);
    assert RenderItem(Pair(k, v)) + nl == [Quote] + k + [Quote] + z;
    SkipToken(k, z);
    SkipQuote(z);
    SkipValue(v, nl);
  }

  lemma SkipValue(v: string, nl: string)
    requires Quote !in v && v != "path"
    requires nl != [] && nl[0] == '\n'
    ensures FindPaths("\t\t" + ([Quote] + v + [Quote] + nl)) == FindPaths(nl)
  {
    SkipQuoteFree("\t\t", [Quote] + v + [Quote] + nl);
    SkipToken(v, nl);
    SkipQuote(nl);
  }

  /** The matches in one rendered entry followed by more text. */
  lemma EntryPaths(e: VdfEntry, rest: string)
    requires EntryOk(e)
    ensures FindPaths(RenderEntry(e) + rest) == ItemPaths(e.item) + FindPaths(rest)
  {
    var y := RenderItem(e.item) + "\n" + rest;
    assert RenderEntry(e) + rest == e.indent + y;
    assert Quote !in e.indent by {
      assert Quote !in Whitespace;
      assert forall k :: 0 <= k < |e.indent| ==> e.indent[k] in Whitespace;
    }
    SkipQuoteFree(e.indent, y);
    ItemLinePaths(e.item, rest);
  }

  /** In a well-formed document the library scan finds exactly the values of
      the `"path"` keys, in order, whatever else the document holds. */
  /** Over every document of well-formed entries, the scan finds exactly
      the `"path"` values. */
  lemma RenderedDocs()
    ensures forall doc :: (forall k :: 0 <= k < |doc| ==> EntryOk(doc[k])) ==> FindPaths(RenderDoc(doc)) == PathValues(doc)
  {
    forall doc | forall k :: 0 <= k < |doc| ==> EntryOk(doc[k])
      ensures FindPaths(RenderDoc(doc)) == PathValues(doc)
    {
      FindPathsDoc(doc);
    }
  }

  /** A library file rendered from well-formed entries lists exactly their
      `"path"` values, in file order. */
  lemma ParseLibraryFoldersOfDoc(doc: seq<VdfEntry>)
    requires forall k :: 0 <= k < |doc| ==> EntryOk(doc[k])
    ensures ParseLibraryFolders(Some(RenderDoc(doc))) == PathValues(doc)
  {
    FindPathsDoc(doc);
  }

  lemma {:induction false} FindPathsDoc(doc: seq<VdfEntry>)
    requires forall k :: 0 <= k < |doc| ==> EntryOk(doc[k])
    ensures FindPaths(RenderDoc(doc)) == PathValues(doc)
  {
    if doc != [] {
      EntryPaths(doc[0], RenderDoc(doc[1..]));
      FindPathsDoc(doc[1..]);
    }
  }

  // ---------------------------------------------------------------- appmanifest_*.acf

  const AppidKey: string := "\"appid\""
  const NameKey: string := "\"name\""

  /** Python truthiness of an optional string: present and non-empty. */
  predicate Filled(o: Option<string>) {
    o.Some? && o.value != []
  }

  /** The two variables `parse_appmanifest` fills while reading. */
  datatype ManifestState = ManifestState(appid: Option<string>, name: Option<string>)

  predicate Complete(st: ManifestState) {
    Filled(st.appid) && Filled(st.name)
  }

  /** Parsed values never hold a quote. */
  predicate QuoteFree(st: ManifestState) {
    (st.appid.Some? ==> Quote !in st.appid.value) && (st.name.Some? ==> Quote !in st.name.value)
  }

  /** One line: a line mentioning `"appid"` sets the id (even to nothing), and
      only a line that does not may set the name. */
  function Step(st: ManifestState, line: string): ManifestState {
    if Contains(line, AppidKey) then st.(appid := ParseVdfValue(line))
    else if Contains(line, NameKey) then st.(name := ParseVdfValue(line))
    else st
  }

  /** Reads lines until both values are set, or to the end of the file. */
  function Scan(lines: seq<string>, st: ManifestState): (r: ManifestState)
    ensures QuoteFree(st) ==> QuoteFree(r)
    decreases |lines|
  {
    if lines == [] then st
    else
      var next := Step(st, lines[0]);
      if Complete(next) then next else Scan(lines[1..], next)
  }

  /** `parse_appmanifest` over the file's lines (`None` when it does not
      exist): the id and name when both were found non-empty. */
  function ParseAppManifest(file: Option<seq<string>>): (r: Option<(string, string)>)
    ensures r.Some? ==> r.value.0 != [] && r.value.1 != []
    ensures r.Some? ==> Quote !in r.value.0 && Quote !in r.value.1
    ensures file.None? ==> r.None?
  {
    match file
    case None => None
    case Some(lines) =>
      var st := Scan(lines, ManifestState(None, None));
      if Complete(st) then Some((st.appid.value, st.name.value)) else None
  }

  /** Reading stops at the first line after which both values are set, so
      whatever follows that point never matters. */
  lemma {:induction false} ScanStops(pre: seq<string>, post: seq<string>, st: ManifestState)
    requires pre != [] && Complete(Scan(pre, st))
    ensures Scan(pre + post, st) == Scan(pre, st)
    decreases |pre|
  {
    var next := Step(st, pre[0]);
    assert (pre + post)[0] == pre[0];
    if !Complete(next) {
      assert Scan(pre, st) == Scan(pre[1..], next);
      assert pre[1..] != [];
      assert (pre + post)[1..] == pre[1..] + post;
      ScanStops(pre[1..], post, next);
    }
  }

  lemma ManifestStops(pre: seq<string>, post: seq<string>)
    requires ParseAppManifest(Some(pre)).Some?
    ensures ParseAppManifest(Some(pre + post)) == ParseAppManifest(Some(pre))
  {
    ScanStops(pre, post, ManifestState(None, None));
  }

  /** A line mentioning `"appid"` never sets the name. */
  lemma {:induction false} NameOnlyFromOwnLine(lines: seq<string>, st: ManifestState)
    requires forall k :: 0 <= k < |lines| && Contains(lines[k], NameKey) ==> Contains(lines[k], AppidKey)
    ensures Scan(lines, st).name == st.name
    decreases |lines|
  {
    if lines != [] {
      var next := Step(st, lines[0]);
      assert next.name == st.name;
      if !Complete(next) {
        NameOnlyFromOwnLine(lines[1..], next);
      }
    }
  }

  /** A manifest whose only `"name"` lines also mention `"appid"` gives nothing. */
  lemma NoNameWithoutOwnLine(lines: seq<string>)
    requires forall k :: 0 <= k < |lines| && Contains(lines[k], NameKey) ==> Contains(lines[k], AppidKey)
    ensures ParseAppManifest(Some(lines)) == None
  {
    NameOnlyFromOwnLine(lines, ManifestState(None, None));
  }

  /** Line `k` of `lines` sets the id to `v`. */
  predicate SetsAppid(lines: seq<string>, k: int, v: Option<string>) {
    0 <= k < |lines| && Contains(lines[k], AppidKey) && ParseVdfValue(lines[k]) == v
  }

  /** Line `k` of `lines` sets the name to `v`. */
  predicate SetsName(lines: seq<string>, k: int, v: Option<string>) {
    0 <= k < |lines| && !Contains(lines[k], AppidKey) && Contains(lines[k], NameKey) &&
    ParseVdfValue(lines[k]) == v
  }

  lemma {:induction false} ScanSources(lines: seq<string>, st: ManifestState)
    ensures var r := Scan(lines, st);
      (r.appid == st.appid || exists k :: SetsAppid(lines, k, r.appid)) &&
      (r.name == st.name || exists k :: SetsName(lines, k, r.name))
    decreases |lines|
  {
    if lines != [] {
      var next := Step(st, lines[0]);
      var r := Scan(lines, st);
      if !Complete(next) {
        ScanSources(lines[1..], next);
        if r.appid != next.appid {
          var k :| SetsAppid(lines[1..], k, r.appid);
          assert SetsAppid(lines, k + 1, r.appid);
        }
        if r.name != next.name {
          var k :| SetsName(lines[1..], k, r.name);
          assert SetsName(lines, k + 1, r.name);
        }
      }
      if r.appid != st.appid && r.appid == next.appid {
        assert SetsAppid(lines, 0, r.appid);
      }
      if r.name != st.name && r.name == next.name {
        assert SetsName(lines, 0, r.name);
      }
    }
  }

  /** The id comes from a line mentioning `"appid"` and the name from a line
      mentioning `"name"` but not `"appid"`. */
  lemma ManifestSources(lines: seq<string>)
    requires ParseAppManifest(Some(lines)).Some?
    ensures var g := ParseAppManifest(Some(lines)).value;
      (exists k :: SetsAppid(lines, k, Some(g.0))) && (exists k :: SetsName(lines, k, Some(g.1)))
  {
    ScanSources(lines, ManifestState(None, None));
  }

  /** An id line followed by a separate name line yields the pair, whatever follows. */
  lemma ManifestOfTwoLines(idLine: string, nameLine: string, post: seq<string>, id: string, name: string)
    requires SetsAppid([idLine], 0, Some(id)) && id != []
    requires SetsName([nameLine], 0, Some(name)) && name != []
    ensures ParseAppManifest(Some([idLine, nameLine] + post)) == Some((id, name))
  {
    var lines := [idLine, nameLine] + post;
    var st1 := ManifestState(Some(id), None);
    var st2 := ManifestState(Some(id), Some(name));
    assert Step(ManifestState(None, None), idLine) == st1;
    assert Step(st1, nameLine) == st2;
    assert lines[0] == idLine && lines[1..][0] == nameLine;
    assert Scan(lines[1..], st1) == st2;
    assert Scan(lines, ManifestState(None, None)) == st2;
  }

  // ---------------------------------------------------------------- listing

  /** `get_steam_root`: the Steam data directory under the user's home
      directory `home`, inside the sandbox for a Flatpak install. */
  function GetSteamRoot(flatpak: bool, home: string): (r: string)
    ensures var tail := "/" + if flatpak then ".var/app/com.valvesoftware.Steam/.steam/steam" else ".steam/steam";
      r == TrimRight(home, Slashes) + tail
  {
    var tail := "/" + if flatpak then ".var/app/com.valvesoftware.Steam/.steam/steam" else ".steam/steam";
    ExpandHome(tail, home);
    ExpandUser("~" + tail, home)
  }

  /** Names (lower-cased) of tools and runtimes that are not games. */
  const ExcludePrefixes: seq<string> := ["proton", "steam linux runtime", "steamworks common", "steamvr"]

  predicate Excluded(name: string) {
    exists k :: 0 <= k < |ExcludePrefixes| && StartsWith(Lower(name), ExcludePrefixes[k])
  }

  predicate IsManifestFile(f: string) {
    StartsWith(f, "appmanifest_") && EndsWith(f, ".acf")
  }

  /** What the directory listing, the file probes and file reads report. */
  datatype SteamFiles = SteamFiles(
    readText: string -> Option<string>,
    exists_: string -> bool,
    isDir: string -> bool,
    listDir: string -> seq<string>,
    readLines: string -> Option<seq<string>>)

  /** File `f` of directory `dir` is a manifest naming game `g`. */
  predicate Kept(fs: SteamFiles, dir: string, f: string, g: (string, string)) {
    IsManifestFile(f) && ParseAppManifest(fs.readLines(Join(dir, f))) == Some(g) && !Excluded(g.1)
  }

  /** A game as the listing reports it: id and name present, not a tool. */
  predicate GoodGame(g: (string, string)) {
    g.0 != [] && g.1 != [] && !Excluded(g.1)
  }

  /** The game file `f` of directory `dir` contributes, if any. */
  function FileGames(fs: SteamFiles, dir: string, f: string): (r: seq<(string, string)>)
    ensures forall g :: g in r <==> Kept(fs, dir, f, g)
    ensures forall g :: g in r ==> GoodGame(g)
  {
    if IsManifestFile(f) then
      match ParseAppManifest(fs.readLines(Join(dir, f)))
      case Some(g) => if Excluded(g.1) then [] else [g]
      case None => []
    else []
  }

  /** The games of one `steamapps` directory listing, in listing order. */
  function DirGames(fs: SteamFiles, dir: string, files: seq<string>): (r: seq<(string, string)>)
    ensures forall g :: g in r <==> exists f :: f in files && Kept(fs, dir, f, g)
    ensures forall g :: g in r ==> GoodGame(g)
  {
    if files == [] then []
    else
      assert forall x :: x in files <==> x == files[0] || x in files[1..];
      FileGames(fs, dir, files[0]) + DirGames(fs, dir, files[1..])
  }

  /** The games of the `steamapps` directory below library `lib`: none when
      it does not exist, and the `NotADirectoryError` of listing it when it
      exists but is not a directory. */
  function LibraryGames(fs: SteamFiles, lib: string): (r: Result<seq<(string, string)>>)
    ensures !fs.exists_(Join(lib, "steamapps")) ==> r == Ok([])
    ensures r.Err? <==> fs.exists_(Join(lib, "steamapps")) && !fs.isDir(Join(lib, "steamapps"))
    ensures r.Ok? ==> var dir := Join(lib, "steamapps");
      forall g :: g in r.value <==> fs.exists_(dir) && exists f :: f in fs.listDir(dir) && Kept(fs, dir, f, g)
    ensures r.Ok? ==> forall g :: g in r.value ==> GoodGame(g)
  {
    var dir := Join(lib, "steamapps");
    if !fs.exists_(dir) then Ok([])
    else if !fs.isDir(dir) then Err("NotADirectoryError")
    else Ok(DirGames(fs, dir, fs.listDir(dir)))
  }

  /** The games of every library in turn; a library that cannot be listed
      raises, and the whole listing with it. */
  function LibrariesGames(fs: SteamFiles, libs: seq<string>): (r: Result<seq<(string, string)>>)
    ensures r.Ok? <==> forall lib :: lib in libs ==> LibraryGames(fs, lib).Ok?
    ensures r.Ok? ==> forall g :: g in r.value <==>
      exists lib :: lib in libs && LibraryGames(fs, lib).Ok? && g in LibraryGames(fs, lib).value
    ensures r.Ok? ==> forall g :: g in r.value ==> GoodGame(g)
  {
    if libs == [] then Ok([])
    else
      assert forall x :: x in libs <==> x == libs[0] || x in libs[1..];
      match LibraryGames(fs, libs[0])
      case Err(e) => Err(e)
      case Ok(first) =>
        match LibrariesGames(fs, libs[1..])
        case Err(e) => Err(e)
        case Ok(rest) => Ok(first + rest)
  }

  /** The libraries `list_steam_games` scans: those listed in
      `config/libraryfolders.vdf`, else the root's own `steamapps`. */
  function SteamLibraries(fs: SteamFiles, root: string): (r: seq<string>)
    ensures r != []
    ensures ParseLibraryFolders(fs.readText(Join(Join(root, "config"), "libraryfolders.vdf"))) != [] ==>
      r == ParseLibraryFolders(fs.readText(Join(Join(root, "config"), "libraryfolders.vdf")))
    ensures ParseLibraryFolders(fs.readText(Join(Join(root, "config"), "libraryfolders.vdf"))) == [] ==>
      r == [Join(root, "steamapps")]
  {
    var listed := ParseLibraryFolders(fs.readText(Join(Join(root, "config"), "libraryfolders.vdf")));
    if listed == [] then [Join(root, "steamapps")] else listed
  }

  /** `list_steam_games`: nothing unless Steam is installed; otherwise the
      games of every library's manifests, minus tools and runtimes. */
  function ListSteamGames(installed: bool, flatpak: bool, home: string, fs: SteamFiles): (r: Result<seq<(string, string)>>)
    ensures !installed ==> r == Ok([])
    ensures r.Ok? ==> forall g :: g in r.value ==> GoodGame(g)
    ensures installed ==> (r.Ok? <==>
      forall lib :: lib in SteamLibraries(fs, GetSteamRoot(flatpak, home)) ==> LibraryGames(fs, lib).Ok?)
    ensures installed && r.Ok? ==> forall g :: g in r.value <==>
      exists lib :: lib in SteamLibraries(fs, GetSteamRoot(flatpak, home)) &&
        LibraryGames(fs, lib).Ok? && g in LibraryGames(fs, lib).value
  {
    if !installed then Ok([])
    else LibrariesGames(fs, SteamLibraries(fs, GetSteamRoot(flatpak, home)))
  }

  /** Without listed libraries, the one directory scanned is
      `<root>/steamapps/steamapps`, since the fallback library gets
      `steamapps` appended once more. */
  lemma FallbackLibrary(fs: SteamFiles, root: string)
    requires ParseLibraryFolders(fs.readText(Join(Join(root, "config"), "libraryfolders.vdf"))) == []
    ensures LibrariesGames(fs, SteamLibraries(fs, root)) == LibraryGames(fs, Join(root, "steamapps"))
  {
    var libs := SteamLibraries(fs, root);
    assert libs == [Join(root, "steamapps")];
    assert libs[1..] == [];
    match LibraryGames(fs, libs[0])
    case Err(_) =>
    case Ok(first) => assert first + [] == first;
  }

  /** So without listed libraries and without a doubled `steamapps`
      directory, no game is listed, whatever `<root>/steamapps` holds. */
  lemma FallbackMissesRoot(fs: SteamFiles, root: string)
    requires ParseLibraryFolders(fs.readText(Join(Join(root, "config"), "libraryfolders.vdf"))) == []
    requires !fs.exists_(Join(Join(root, "steamapps"), "steamapps"))
    ensures LibrariesGames(fs, SteamLibraries(fs, root)) == Ok([])
  {
    FallbackLibrary(fs, root);
  }

  /** The libraries as evidently intended: the listed ones, else the root
      itself, whose `steamapps` directory holds the manifests. */
  function IntendedLibraries(fs: SteamFiles, root: string): (r: seq<string>)
    ensures r != []
    ensures ParseLibraryFolders(fs.readText(Join(Join(root, "config"), "libraryfolders.vdf"))) != [] ==>
      r == SteamLibraries(fs, root)
  {
    var listed := ParseLibraryFolders(fs.readText(Join(Join(root, "config"), "libraryfolders.vdf")));
    if listed == [] then [root] else listed
  }

  /** Without listed libraries the intended fallback lists exactly the games
      of the manifests in `<root>/steamapps`. */
  lemma IntendedFallback(fs: SteamFiles, root: string)
    requires ParseLibraryFolders(fs.readText(Join(Join(root, "config"), "libraryfolders.vdf"))) == []
    ensures LibrariesGames(fs, IntendedLibraries(fs, root)).Ok? <==>
      !(fs.exists_(Join(root, "steamapps")) && !fs.isDir(Join(root, "steamapps")))
    ensures LibrariesGames(fs, IntendedLibraries(fs, root)).Ok? ==>
      forall g :: g in LibrariesGames(fs, IntendedLibraries(fs, root)).value <==>
        fs.exists_(Join(root, "steamapps")) &&
        exists f :: f in fs.listDir(Join(root, "steamapps")) && Kept(fs, Join(root, "steamapps"), f, g)
  {
    var libs := IntendedLibraries(fs, root);
    assert libs == [root];
    assert forall lib :: lib in libs <==> lib == root;
  }
}
