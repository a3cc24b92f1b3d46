/** SteamGridDB covers: the cache file a title maps to, the request chain
    that fetches a cover, and checking and keeping the API key. Each HTTP
    request is an input: its decoded JSON reply, or a failure. */
module Covers {
  import opened Wrappers
  import opened Text
  import opened Paths
  import opened Json

  /** The image used when no cover can be had. */
  const DefaultImage: string := "default.png"

  /** The outcome of a JSON request: a connection error, a non-2xx status
      (raised by `raise_for_status`) or an undecodable body, all of them a
      `RequestException`; or the decoded body. */
  datatype Reply = RequestFailed | Replied(body: JValue)

  /** The cache file of a title: lower-cased, spaces turned into dashes,
      with ".png" appended, inside the covers directory. */
  function CacheName(title: string): (r: string)
    ensures |r| == |title| + 4 && EndsWith(r, ".png")
    ensures ' ' !in r[..|title|]
    ensures forall k :: 0 <= k < |title| ==> r[k] == (if title[k] == ' ' then '-' else LowerChar(title[k]))
  {
    ReplaceChar(Lower(title), ' ', '-') + ".png"
  }

  function CachePath(coversDir: string, title: string): string {
    Join(coversDir, CacheName(title))
  }

  /** Titles that differ only in letter case share one cache file. */
  lemma CaseShared(coversDir: string, a: string, b: string)
    requires Lower(a) == Lower(b)
    ensures CachePath(coversDir, a) == CachePath(coversDir, b)
  {
  }

  /** Titles whose cache files coincide agree once lower-cased and with
      spaces and dashes identified. */
  lemma SharedCacheName(a: string, b: string)
    requires CacheName(a) == CacheName(b)
    ensures |a| == |b|
    ensures forall k :: 0 <= k < |a| ==> LowerChar(a[k]) == LowerChar(b[k]) || (Dash(a[k]) && Dash(b[k]))
  {
    assert |CacheName(a)| == |a| + 4;
    forall k | 0 <= k < |a|
      ensures LowerChar(a[k]) == LowerChar(b[k]) || (Dash(a[k]) && Dash(b[k]))
    {
      assert CacheName(a)[k] == CacheName(b)[k];
      LowerSpace(a[k]);
      LowerSpace(b[k]);
    }
  }

  /** A blank or a dash, which the cache name does not tell apart. */
  predicate Dash(c: char)
  {
    c == ' ' || c == '-'
  }

  lemma LowerSpace(c: char)
    ensures LowerChar(c) == '-' <==> c == '-'
    ensures LowerChar(c) == ' ' <==> c == ' '
  {
  }

  const SearchBase: string := "https://www.steamgriddb.com/api/v2/search/autocomplete/"
  const GridBase: string := "https://www.steamgriddb.com/api/v2/grids/game/"
  const GridQuery: string := "?dimensions=600x900&types=static"

  /** The "data" member of a reply, or the error reading it raises. */
  function Data(body: JValue): Result<JValue> {
    Subscript(body, Name("data"))
  }

  /** `download_image_from_steamgriddb`. `cached` says whether a file
      exists, `get` answers a JSON request by URL, and `fetchImage` says
      whether the image at a URL downloaded (image decoding and saving are
      not part of this model). An error result is an exception the function
      does not catch: a reply of an unexpected shape. */
  function DownloadCover(title: string, coversDir: string, cached: string -> bool,
                         get: string -> Reply, fetchImage: string -> bool): (r: Result<string>)
    ensures cached(CachePath(coversDir, title)) ==> r == Ok(CachePath(coversDir, title))
    ensures r.Ok? ==> r.value == CachePath(coversDir, title) || r.value == DefaultImage
    ensures !cached(CachePath(coversDir, title)) && get(SearchBase + title).RequestFailed? ==> r == Ok(DefaultImage)
    ensures (!cached(CachePath(coversDir, title)) && get(SearchBase + title).Replied? &&
      Data(get(SearchBase + title).body).Ok? && !Truthy(Data(get(SearchBase + title).body).value)) ==> r == Ok(DefaultImage)
  {
    var path := CachePath(coversDir, title);
    if cached(path) then Ok(path)
    else match get(SearchBase + title)
      case RequestFailed => Ok(DefaultImage)
      case Replied(search) =>
        match Data(search)
        case Err(e) => Err(e)
        case Ok(results) =>
          if !Truthy(results) then Ok(DefaultImage)
          else match Path(results, [Index(0), Name("id")])
            case Err(e) => Err(e)
            case Ok(gameId) => FromGrid(get(GridBase + PyStr(gameId) + GridQuery), path, fetchImage)
  }

  /** The second half of the download: from the grid reply to the cover
      saved at `path`, or the default image. */
  function FromGrid(reply: Reply, path: string, fetchImage: string -> bool): (r: Result<string>)
    ensures r.Ok? ==> r.value == path || r.value == DefaultImage
    ensures reply.RequestFailed? ==> r == Ok(DefaultImage)
  {
    match reply
    case RequestFailed => Ok(DefaultImage)
    case Replied(grid) =>
      match Data(grid)
      case Err(e) => Err(e)
      case Ok(grids) =>
        if !Truthy(grids) then Ok(DefaultImage)
        else match Path(grids, [Index(0), Name("url")])
          case Err(e) => Err(e)
          case Ok(url) => if fetchImage(PyStr(url)) then Ok(path) else Ok(DefaultImage)
  }

  /** A search result whose first entry carries an id. */
  function Found(id: JValue): JValue {
    JObj([("data", JArr([JObj([("id", id)])]))])
  }

  /** A grid reply whose first entry carries an image URL. */
  function Grid(url: string): JValue {
    JObj([("data", JArr([JObj([("url", JStr(url))])]))])
  }

  /** Reading the first id out of a search result that has one. */
  lemma FoundId(id: JValue)
    ensures Data(Found(id)).Ok? && Truthy(Data(Found(id)).value)
    ensures Path(Data(Found(id)).value, [Index(0), Name("id")]) == Ok(id)
  {
    var entry := JObj([("id", id)]);
    assert Data(Found(id)) == Ok(JArr([entry]));
    assert Subscript(JArr([entry]), Index(0)) == Ok(entry);
    assert Subscript(entry, Name("id")) == Ok(id);
    assert [Index(0), Name("id")][1..] == [Name("id")];
  }

  /** Reading the first URL out of a grid reply that has one. */
  lemma GridUrl(url: string)
    ensures Data(Grid(url)).Ok? && Truthy(Data(Grid(url)).value)
    ensures Path(Data(Grid(url)).value, [Index(0), Name("url")]) == Ok(JStr(url))
  {
    var g := JObj([("url", JStr(url))]);
    assert Data(Grid(url)) == Ok(JArr([g]));
    assert Subscript(JArr([g]), Index(0)) == Ok(g);
    assert Subscript(g, Name("url")) == Ok(JStr(url));
    assert [Index(0), Name("url")][1..] == [Name("url")];
  }

  /** Once the search finds an id, the grid request for that id decides. */
  lemma SearchFound(title: string, coversDir: string, cached: string -> bool,
                    get: string -> Reply, fetchImage: string -> bool, id: JValue)
    requires !cached(CachePath(coversDir, title))
    requires get(SearchBase + title) == Replied(Found(id))
    ensures DownloadCover(title, coversDir, cached, get, fetchImage) ==
      FromGrid(get(GridBase + PyStr(id) + GridQuery), CachePath(coversDir, title), fetchImage)
  {
    FoundId(id);
  }

  /** When the search finds an id, the grid offers a URL and the image
      downloads, the cover is the cache path. */
  lemma CoverFetched(title: string, coversDir: string, cached: string -> bool,
                     get: string -> Reply, fetchImage: string -> bool, id: JValue, url: string)
    requires !cached(CachePath(coversDir, title))
    requires get(SearchBase + title) == Replied(Found(id))
    requires get(GridBase + PyStr(id) + GridQuery) == Replied(Grid(url))
    requires fetchImage(url)
    ensures DownloadCover(title, coversDir, cached, get, fetchImage) == Ok(CachePath(coversDir, title))
  {
    SearchFound(title, coversDir, cached, get, fetchImage, id);
    GridUrl(url);
  }

  /** A grid reply without images, or an image that does not download,
      gives the default image. */
  lemma GridFallback(reply: Reply, path: string, fetchImage: string -> bool, url: string)
    requires reply == Replied(JObj([("data", JArr([]))])) || (reply == Replied(Grid(url)) && !fetchImage(url))
    ensures FromGrid(reply, path, fetchImage) == Ok(DefaultImage)
  {
    if reply == Replied(JObj([("data", JArr([]))])) {
      assert Data(reply.body) == Ok(JArr([]));
    } else {
      GridUrl(url);
    }
  }

  /** A grid request that fails, or offers no images, gives the default
      image; so does an image that does not download. */
  lemma NoGrid(title: string, coversDir: string, cached: string -> bool,
               get: string -> Reply, fetchImage: string -> bool, id: JValue, url: string)
    requires !cached(CachePath(coversDir, title))
    requires get(SearchBase + title) == Replied(Found(id))
    requires get(GridBase + PyStr(id) + GridQuery) == RequestFailed ||
      get(GridBase + PyStr(id) + GridQuery) == Replied(JObj([("data", JArr([]))])) ||
      (get(GridBase + PyStr(id) + GridQuery) == Replied(Grid(url)) && !fetchImage(url))
    ensures DownloadCover(title, coversDir, cached, get, fetchImage) == Ok(DefaultImage)
  {
    SearchFound(title, coversDir, cached, get, fetchImage, id);
    var reply := get(GridBase + PyStr(id) + GridQuery);
    if !reply.RequestFailed? {
      GridFallback(reply, CachePath(coversDir, title), fetchImage, url);
    }
  }

  /** `validate_api_key`, given the status the test request returned, or
      nothing when the request raised. */
  function ValidateApiKey(status: Option<int>): (r: bool)
    ensures status.None? ==> !r
    ensures status.Some? ==> (r <==> status.value == 200)
  {
    status == Some(200)
  }

  /** What `manage_api_key` ends with: the key it returns, if any, and the
      key it wrote to the key file, if any. */
  datatype KeyOutcome = KeyOutcome(key: Option<string>, written: Option<string>)

  /** The first entered key, stripped, that `valid` accepts. */
  function FirstValid(inputs: seq<string>, valid: string -> bool): (r: Option<string>)
    ensures r.Some? ==> valid(r.value)
    ensures r.None? <==> forall k :: 0 <= k < |inputs| ==> !valid(Strip(inputs[k]))
  {
    if inputs == [] then None
    else if valid(Strip(inputs[0])) then Some(Strip(inputs[0]))
    else FirstValid(inputs[1..], valid)
  }

  /** The first valid key is the one at the first position that validates. */
  lemma {:induction false} FirstValidAt(inputs: seq<string>, valid: string -> bool, i: nat)
    requires i < |inputs| && valid(Strip(inputs[i]))
    requires forall k :: 0 <= k < i ==> !valid(Strip(inputs[k]))
    ensures FirstValid(inputs, valid) == Some(Strip(inputs[i]))
    decreases i
  {
    if i > 0 {
      FirstValidAt(inputs[1..], valid, i - 1);
    }
  }

  /** `manage_api_key`. `stored` is the key file's content when it exists,
      `inputs` the lines the user enters and `status` the validation
      request's outcome per key. A stored key that validates is returned as
      is; otherwise keys are read until one validates, and only that one is
      written. Running out of input ends the program without a key. */
  function ManageApiKey(stored: Option<string>, inputs: seq<string>, status: string -> Option<int>): (r: KeyOutcome)
    ensures r.key.Some? ==> ValidateApiKey(status(r.key.value))
    ensures r.written.Some? ==> r.key == r.written
    ensures stored.Some? && ValidateApiKey(status(Strip(stored.value))) ==> r == KeyOutcome(Some(Strip(stored.value)), None)
    ensures !(stored.Some? && ValidateApiKey(status(Strip(stored.value)))) ==> r.key == r.written
    ensures r.key.None? <==> (!(stored.Some? && ValidateApiKey(status(Strip(stored.value)))) &&
      forall k :: 0 <= k < |inputs| ==> !ValidateApiKey(status(Strip(inputs[k]))))
  {
    var valid := (key: string) => ValidateApiKey(status(key));
    if stored.Some? && valid(Strip(stored.value)) then KeyOutcome(Some(Strip(stored.value)), None)
    else
      var entered := FirstValid(inputs, valid);
      KeyOutcome(entered, entered)
  }
}
